/** src/datamodule.py: `DataBaseManager`, the SQLite store used as a
    three-day cache. Every stored row carries the time it was written
    (`database_updated_date`); a table is served from the store while its
    first row is younger than three days, and is otherwise fetched again,
    stamped with the current time and written back in replace mode. For
    the currency table that refetch raises instead (`CurrencyRate`), and
    `CurrencyRateIntended` is the refresh the code evidently means. The
    database is a map from table name to rows; the clock and the fetchers
    are parameters. Times are whole seconds, the resolution of the
    `"%Y-%m-%d %H:%M:%S"` stamps.
 */
module Cache {
  import opened Wrappers
  import opened Seqs
  import opened PriceJoin

  /** `pd.Timedelta(days=3)`, in seconds. */
  const Fresh: int := 3 * 86400

  /** The table the currency rates are cached in. */
  const RatesTable: string := "currency_rates"

  /** A stored row: a currency-table row or a price-detail row. */
  datatype Row = RateRow(rate: CurrencyRow) | DetailRow(detail: PriceDetail)

  /** A row with its `database_updated_date`. */
  datatype Stamped = Stamped(row: Row, stamp: int)

  type Table = seq<Stamped>

  /** The database: its tables, and whether `sqlite_master` can be read. */
  datatype Db = Db(tables: map<string, Table>, listable: bool)

  /** `table_names`: every table, or none when the listing query raises. */
  function TableNames(db: Db): (r: set<string>)
    ensures r <= db.tables.Keys
    ensures !db.listable ==> r == {}
  {
    if db.listable then db.tables.Keys else {}
  }

  /** `save_table` in replace mode: a non-empty frame replaces the named
      table; an empty one writes nothing. */
  function Save(db: Db, name: string, data: Table): (r: Db)
    ensures data == [] ==> r == db
    ensures data != [] ==> name in r.tables && r.tables[name] == data
    ensures r.listable == db.listable
  {
    if data == [] then db else Db(db.tables[name := data], db.listable)
  }

  /** A name the model lets through `SELECT * FROM '{name}'`. A quote in
      the name ends the string literal early; the model counts every such
      query as failing, although SQLite parses a few of them (a trailing
      `' --` comment, or doubled quotes). */
  predicate Quotable(name: string) {
    '\'' !in name
  }

  /** `read_table`: the stored rows, or the `DatabaseError` pandas raises
      when the query names no table or does not parse. */
  function Read(db: Db, name: string): (r: Result<Table>)
    ensures r.Ok? <==> name in db.tables && Quotable(name)
    ensures r.Ok? ==> r.value == db.tables[name]
    ensures r.Err? ==> r.error == DatabaseError
  {
    if name in db.tables && Quotable(name) then Ok(db.tables[name]) else Err(DatabaseError)
  }

  /** A write touches only the named table. */
  lemma SaveOthers(db: Db, name: string, data: Table, other: string)
    requires other != name
    ensures other in Save(db, name, data).tables <==> other in db.tables
    ensures other in db.tables ==> Save(db, name, data).tables[other] == db.tables[other]
  {
  }

  /** Reading a table back after saving non-empty rows gives those rows,
      unless its name holds a quote: `to_sql` quotes the name properly and
      stores the table, but the query of `read_table` cannot reach it. */
  lemma SaveThenRead(db: Db, name: string, data: Table)
    requires data != []
    ensures Read(Save(db, name, data), name) == if Quotable(name) then Ok(data) else Err(DatabaseError)
  {
  }

  /** The common head of `currency_rate` and `update_ingame_price`: the
      stored rows when the table is listed and its first stamp is less than
      three days old, `None` when it must be fetched again, the
      `DatabaseError` of reading a listed table whose name holds a quote, and
      the `IndexError` of `values[0]` on a listed table with no rows. */
  function Cached(db: Db, name: string, now: int): (r: Result<Option<Table>>)
    ensures r.Err? <==> name in TableNames(db) && (!Quotable(name) || db.tables[name] == [])
    ensures r.Err? ==> r.error == (if Quotable(name) then IndexError else DatabaseError)
    ensures r.Ok? && r.value.Some? <==>
      name in TableNames(db) && Quotable(name) && db.tables[name] != [] && now - db.tables[name][0].stamp < Fresh
    ensures r.Ok? && r.value.Some? ==> r.value.value == db.tables[name]
  {
    if name !in TableNames(db) then Ok(None)
    else
      match Read(db, name)
      case Err(e) => Err(e)
      case Ok(data) =>
        if data == [] then Err(IndexError)
        else if now - data[0].stamp < Fresh then Ok(Some(data))
        else Ok(None)
  }

  /** Every row of a fetched frame stamped with `now`. */
  function StampAll(rows: seq<Row>, now: int): (r: Table)
    ensures |r| == |rows|
  {
    Map(rows, (row: Row) => Stamped(row, now))
  }

  /** Stamping keeps the rows and sets every stamp to `now`. */
  lemma StampAllRows(rows: seq<Row>, now: int, i: nat)
    requires i < |rows|
    ensures StampAll(rows, now)[i] == Stamped(rows[i], now)
  {
  }

  /** The fetched currency table as stored rows. */
  function RateRows(rates: seq<CurrencyRow>, now: int): (r: Table)
    ensures |r| == |rates|
  {
    StampAll(Map(rates, (c: CurrencyRow) => RateRow(c)), now)
  }

  /** The currency rows of a stored table. */
  function RatesOf(t: Table): (r: seq<CurrencyRow>)
    ensures |r| <= |t|
  {
    Collect(t, (s: Stamped) => if s.row.RateRow? then Some(s.row.rate) else None)
  }

  /** Storing the currency table and reading its rates back is lossless. */
  lemma RatesRoundTrip(rates: seq<CurrencyRow>, now: int)
    ensures RatesOf(RateRows(rates, now)) == rates
  {
    var f := (s: Stamped) => if s.row.RateRow? then Some(s.row.rate) else None;
    var t := RateRows(rates, now);
    forall i | 0 <= i < |t|
      ensures f(t[i]).Some?
    {
      StampAllRows(Map(rates, (c: CurrencyRow) => RateRow(c)), now, i);
    }
    CollectTotal(t, f);
    forall i | 0 <= i < |rates|
      ensures RatesOf(t)[i] == rates[i]
    {
      StampAllRows(Map(rates, (c: CurrencyRow) => RateRow(c)), now, i);
    }
  }

  /** `currency_rate` as the program has it: the cached table while fresh.
      On a miss, lines 54 and 62 build `CurrencyRate(path=...)` from
      src/currency.py, a pydantic model whose only field, `country_name`,
      is required; the unknown `path` is ignored and the missing field
      raises `ValidationError` before anything is fetched or saved. The
      store is returned, unchanged, beside the table so that the call has
      the shape of `CurrencyRateIntended`. */
  function CurrencyRate(db: Db, now: int): (r: Result<(Db, Table)>)
    ensures r.Ok? <==> Cached(db, RatesTable, now).Ok? && Cached(db, RatesTable, now).value.Some?
    ensures r.Ok? ==> RatesTable in db.tables && r.value == (db, db.tables[RatesTable])
    ensures r.Err? ==> r.error == (if Cached(db, RatesTable, now).Err? then Cached(db, RatesTable, now).error else ValidationError)
  {
    var hit :- Cached(db, RatesTable, now);
    if hit.Some? then Ok((db, hit.value)) else Err(ValidationError)
  }

  /** `currency_rate` as evidently intended: the cached table while fresh;
      otherwise the fetched rates stamped with `now`, saved and returned.
      The new store comes first in the result. */
  function CurrencyRateIntended(db: Db, now: int, fetched: seq<CurrencyRow>): (r: Result<(Db, Table)>)
    ensures r.Err? <==> Cached(db, RatesTable, now).Err?
    ensures r.Ok? && Cached(db, RatesTable, now).value.Some? ==> r.value == (db, db.tables[RatesTable])
    ensures r.Ok? && Cached(db, RatesTable, now).value.None? ==>
      r.value.1 == RateRows(fetched, now) && r.value.0 == Save(db, RatesTable, RateRows(fetched, now))
  {
    var hit :- Cached(db, RatesTable, now);
    if hit.Some? then Ok((db, hit.value))
    else
      var data := RateRows(fetched, now);
      Ok((Save(db, RatesTable, data), data))
  }

  /** The two versions agree exactly when the cache does not miss; on a
      miss the program raises where the intended version refreshes. */
  lemma CurrencyRatesAgree(db: Db, now: int, fetched: seq<CurrencyRow>)
    ensures CurrencyRate(db, now) == CurrencyRateIntended(db, now, fetched) <==> Cached(db, RatesTable, now) != Ok(None)
    ensures Cached(db, RatesTable, now) == Ok(None) ==>
      CurrencyRate(db, now) == Err(ValidationError) && CurrencyRateIntended(db, now, fetched).Ok?
  {
  }

  /** On an empty store the program raises `ValidationError`, where the
      intended version fetches and saves the rates. */
  lemma CurrencyRateEmptyStore(now: int, fetched: seq<CurrencyRow>)
    ensures CurrencyRate(Db(map[], true), now) == Err(ValidationError)
    ensures CurrencyRateIntended(Db(map[], true), now, fetched) ==
      Ok((Save(Db(map[], true), RatesTable, RateRows(fetched, now)), RateRows(fetched, now)))
  {
  }

  /** As written, a miss is permanent: `currency_rate` writes nothing, so
      a store it misses on at `now` is missed at every later time. */
  lemma MissPersists(db: Db, now: int, later: int)
    requires Cached(db, RatesTable, now) == Ok(None) && now <= later
    ensures CurrencyRate(db, later) == Err(ValidationError)
  {
    if RatesTable in TableNames(db) {
      assert Read(db, RatesTable) == Ok(db.tables[RatesTable]);
    }
  }

  /** The comparison is strict: a table exactly three days old is a miss
      (the program raises, the intended version refreshes), and one second
      younger it is a hit. */
  lemma ThreeDaysIsStale(db: Db, now: int, fetched: seq<CurrencyRow>)
    requires db.listable && RatesTable in db.tables && db.tables[RatesTable] != []
    requires now == db.tables[RatesTable][0].stamp + Fresh
    ensures CurrencyRate(db, now) == Err(ValidationError)
    ensures CurrencyRateIntended(db, now, fetched) == Ok((Save(db, RatesTable, RateRows(fetched, now)), RateRows(fetched, now)))
    ensures CurrencyRate(db, now - 1) == Ok((db, db.tables[RatesTable]))
  {
  }

  /** A store whose tables cannot be listed never serves from the cache:
      the program always raises, the intended version always refreshes. */
  lemma UnlistableMisses(db: Db, now: int, fetched: seq<CurrencyRow>)
    requires !db.listable
    ensures CurrencyRate(db, now) == Err(ValidationError)
    ensures CurrencyRateIntended(db, now, fetched) == Ok((Save(db, RatesTable, RateRows(fetched, now)), RateRows(fetched, now)))
  {
  }

  /** With the intended refresh, after a refresh at `now` that fetched
      rates, every call less than three days later is served from the
      store, returns the same rows, and writes nothing, whatever it would
      have fetched. */
  lemma RefreshThenHit(db: Db, now: int, later: int, fetched: seq<CurrencyRow>, fetched': seq<CurrencyRow>)
    requires db.listable && fetched != []
    requires Cached(db, RatesTable, now) == Ok(None)
    requires now <= later < now + Fresh
    ensures var (db1, data) := CurrencyRateIntended(db, now, fetched).value;
      CurrencyRateIntended(db1, later, fetched') == Ok((db1, data))
  {
    var data := RateRows(fetched, now);
    var db1 := Save(db, RatesTable, data);
    StampAllRows(Map(fetched, (c: CurrencyRow) => RateRow(c)), now, 0);
    assert data[0].stamp == now;
    assert Cached(db1, RatesTable, later) == Ok(Some(data));
  }

  /** No table of the store is empty. */
  predicate NoEmptyTables(db: Db) {
    forall n :: n in db.tables ==> db.tables[n] != []
  }

  /** Saving keeps a store without empty tables so. */
  lemma SaveKeepsNonEmpty(db: Db, name: string, data: Table)
    requires NoEmptyTables(db)
    ensures NoEmptyTables(Save(db, name, data))
  {
    forall n | n in Save(db, name, data).tables
      ensures Save(db, name, data).tables[n] != []
    {
      if n != name {
        SaveOthers(db, name, data, n);
      }
    }
  }

  /** The body of `update_ingame_price`, given the outcome of the
      `currency_rate` read it makes on a miss: the cached table while
      fresh; otherwise the currency table is joined with the game's prices
      by `fetch` (`fetch_data` with that table given), and the rows are
      stamped, saved under `name` on top of whatever `currency_rate` saved,
      and returned. */
  function UpdateWith(
    db: Db, name: string, now: int, currency: Result<(Db, Table)>,
    fetch: seq<CurrencyRow> -> Result<seq<PriceDetail>>): (r: Result<(Db, Table)>)
    ensures Cached(db, name, now).Err? ==> r == Err(Cached(db, name, now).error)
    ensures Cached(db, name, now).Ok? && Cached(db, name, now).value.Some? ==>
      r == Ok((db, Cached(db, name, now).value.value))
    ensures Cached(db, name, now) == Ok(None) && currency.Err? ==> r == Err(currency.error)
  {
    var hit :- Cached(db, name, now);
    if hit.Some? then Ok((db, hit.value))
    else
      var rates :- currency;
      var details :- fetch(RatesOf(rates.1));
      var data := StampAll(Map(details, (d: PriceDetail) => DetailRow(d)), now);
      Ok((Save(rates.0, name, data), data))
  }

  /** `update_ingame_price` as the program has it. A miss of the game's
      table needs a fresh currency table: otherwise the `currency_rate`
      read raises, and the call with it. */
  function UpdateIngamePrice(
    db: Db, name: string, now: int,
    fetch: seq<CurrencyRow> -> Result<seq<PriceDetail>>): (r: Result<(Db, Table)>)
    ensures Cached(db, name, now).Err? ==> r == Err(Cached(db, name, now).error)
    ensures Cached(db, name, now).Ok? && Cached(db, name, now).value.Some? ==>
      r == Ok((db, Cached(db, name, now).value.value))
    ensures Cached(db, name, now) == Ok(None) && Cached(db, RatesTable, now) == Ok(None) ==> r == Err(ValidationError)
  {
    UpdateWith(db, name, now, CurrencyRate(db, now), fetch)
  }

  /** `update_ingame_price` over the intended `currency_rate`. */
  function UpdateIngamePriceIntended(
    db: Db, name: string, now: int, fetchedRates: seq<CurrencyRow>,
    fetch: seq<CurrencyRow> -> Result<seq<PriceDetail>>): (r: Result<(Db, Table)>)
    ensures Cached(db, name, now).Err? ==> r == Err(Cached(db, name, now).error)
    ensures Cached(db, name, now).Ok? && Cached(db, name, now).value.Some? ==>
      r == Ok((db, Cached(db, name, now).value.value))
    ensures Cached(db, name, now) == Ok(None) && Cached(db, RatesTable, now).Err? ==>
      r == Err(Cached(db, RatesTable, now).error)
  {
    UpdateWith(db, name, now, CurrencyRateIntended(db, now, fetchedRates), fetch)
  }

  /** On a miss of the game's table, with a fresh currency table the result
      is the fetched rows stamped with `now`, the fetch sees the stored
      rates, and only the game's table is written; without one the call
      raises what `currency_rate` raises, and a failed fetch raises its
      error. */
  lemma UpdateIngamePriceMiss(
    db: Db, name: string, now: int,
    fetch: seq<CurrencyRow> -> Result<seq<PriceDetail>>)
    requires Cached(db, name, now) == Ok(None)
    ensures CurrencyRate(db, now).Err? ==>
      UpdateIngamePrice(db, name, now, fetch) == Err(CurrencyRate(db, now).error)
    ensures CurrencyRate(db, now).Ok? && fetch(RatesOf(db.tables[RatesTable])).Err? ==>
      UpdateIngamePrice(db, name, now, fetch) == Err(fetch(RatesOf(db.tables[RatesTable])).error)
    ensures CurrencyRate(db, now).Ok? && fetch(RatesOf(db.tables[RatesTable])).Ok? ==>
      UpdateIngamePrice(db, name, now, fetch).Ok? &&
      DetailsSaved(db, name, now, fetch(RatesOf(db.tables[RatesTable])).value, UpdateIngamePrice(db, name, now, fetch).value)
  {
    if CurrencyRate(db, now).Ok? && fetch(RatesOf(db.tables[RatesTable])).Ok? {
      StampedDetails(fetch(RatesOf(db.tables[RatesTable])).value, now);
    }
  }

  /** `out` is the store `db` with `details`, stamped with `now`, saved
      under `name`, and those stamped rows. */
  predicate DetailsSaved(db: Db, name: string, now: int, details: seq<PriceDetail>, out: (Db, Table)) {
    && |out.1| == |details|
    && (forall i :: 0 <= i < |details| ==> out.1[i] == Stamped(DetailRow(details[i]), now))
    && out.0 == Save(db, name, out.1)
  }

  /** The stamped detail rows, position by position. */
  lemma StampedDetails(details: seq<PriceDetail>, now: int)
    ensures var data := StampAll(Map(details, (d: PriceDetail) => DetailRow(d)), now);
      |data| == |details| && forall i :: 0 <= i < |details| ==> data[i] == Stamped(DetailRow(details[i]), now)
  {
    var rows := Map(details, (d: PriceDetail) => DetailRow(d));
    forall i | 0 <= i < |details|
      ensures StampAll(rows, now)[i] == Stamped(DetailRow(details[i]), now)
    {
      StampAllRows(rows, now, i);
    }
  }

  /** With the intended refresh, a miss fetches the prices with the rates
      `currency_rate` returned and saves them stamped on top of whatever it
      saved. */
  lemma UpdateIngamePriceIntendedMiss(
    db: Db, name: string, now: int, fetchedRates: seq<CurrencyRow>,
    fetch: seq<CurrencyRow> -> Result<seq<PriceDetail>>)
    requires Cached(db, name, now) == Ok(None)
    requires CurrencyRateIntended(db, now, fetchedRates).Ok?
    requires fetch(RatesOf(CurrencyRateIntended(db, now, fetchedRates).value.1)).Ok?
    ensures UpdateIngamePriceIntended(db, name, now, fetchedRates, fetch).Ok?
    ensures DetailsSaved(CurrencyRateIntended(db, now, fetchedRates).value.0, name, now,
      fetch(RatesOf(CurrencyRateIntended(db, now, fetchedRates).value.1)).value,
      UpdateIngamePriceIntended(db, name, now, fetchedRates, fetch).value)
  {
    StampedDetails(fetch(RatesOf(CurrencyRateIntended(db, now, fetchedRates).value.1)).value, now);
  }

  /** A store written only through these operations never holds an empty
      table, so the `IndexError` of an empty table cannot arise from it; the
      lookup raises only on an unreadable name, and the program's
      `currency_rate` only that or `ValidationError`. */
  lemma NoEmptyTablesKept(
    db: Db, name: string, now: int, fetchedRates: seq<CurrencyRow>,
    fetch: seq<CurrencyRow> -> Result<seq<PriceDetail>>)
    requires NoEmptyTables(db)
    ensures Cached(db, name, now).Err? <==> name in TableNames(db) && !Quotable(name)
    ensures Cached(db, name, now).Err? ==> Cached(db, name, now).error == DatabaseError
    ensures CurrencyRate(db, now).Err? ==> CurrencyRate(db, now).error != IndexError
    ensures UpdateIngamePrice(db, name, now, fetch).Ok? ==>
      NoEmptyTables(UpdateIngamePrice(db, name, now, fetch).value.0)
    ensures CurrencyRateIntended(db, now, fetchedRates).Ok?
    ensures NoEmptyTables(CurrencyRateIntended(db, now, fetchedRates).value.0)
    ensures UpdateIngamePriceIntended(db, name, now, fetchedRates, fetch).Ok? ==>
      NoEmptyTables(UpdateIngamePriceIntended(db, name, now, fetchedRates, fetch).value.0)
  {
    if Cached(db, RatesTable, now) == Ok(None) {
      SaveKeepsNonEmpty(db, RatesTable, RateRows(fetchedRates, now));
    }
    UpdateKeepsNonEmpty(db, name, now, CurrencyRate(db, now), fetch);
    UpdateKeepsNonEmpty(db, name, now, CurrencyRateIntended(db, now, fetchedRates), fetch);
  }

  /** The update writes only through `Save`, on top of the store the
      currency read returned. */
  lemma UpdateKeepsNonEmpty(
    db: Db, name: string, now: int, currency: Result<(Db, Table)>,
    fetch: seq<CurrencyRow> -> Result<seq<PriceDetail>>)
    requires NoEmptyTables(db) && (currency.Ok? ==> NoEmptyTables(currency.value.0))
    ensures UpdateWith(db, name, now, currency, fetch).Ok? ==> NoEmptyTables(UpdateWith(db, name, now, currency, fetch).value.0)
  {
    if Cached(db, name, now) == Ok(None) && currency.Ok? && fetch(RatesOf(currency.value.1)).Ok? {
      var data := StampAll(Map(fetch(RatesOf(currency.value.1)).value, (d: PriceDetail) => DetailRow(d)), now);
      SaveKeepsNonEmpty(currency.value.0, name, data);
    }
  }

  /** A game whose name holds a quote is fetched and saved on the first
      call; from then on every call raises `DatabaseError`, because the
      table is listed but cannot be read. */
  lemma QuotedNameRaises(
    db: Db, name: string, now: int, later: int,
    fetch: seq<CurrencyRow> -> Result<seq<PriceDetail>>)
    requires db.listable && name !in db.tables && !Quotable(name)
    requires UpdateIngamePrice(db, name, now, fetch).Ok?
    requires UpdateIngamePrice(db, name, now, fetch).value.1 != []
    ensures var db1 := UpdateIngamePrice(db, name, now, fetch).value.0;
      UpdateIngamePrice(db1, name, later, fetch) == Err(DatabaseError)
  {
    var (db1, data) := UpdateIngamePrice(db, name, now, fetch).value;
    assert db1 == Save(db, name, data);
    assert name in db1.tables && db1.listable;
  }
}
