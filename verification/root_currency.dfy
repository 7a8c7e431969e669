/** currency.py at the repository root: the first version of the scraper.
    Its records use the keys `currency` and `更新日期` and carry no name, a
    failed request leaves `result` unassigned, and the catalog dict lets a
    later row overwrite an earlier one.
 */
module RootCurrency {
  import opened Wrappers
  import opened Seqs
  import opened Tables
  import opened RatePage
  import opened RateRecord
  import opened RateCell
  import Currency

  /** `parse_currency_rates`: one record keyed by the code, with the first
      row's date and every label's last cleaned rate. */
  function ParseCurrencyRates(code: string, rows: seq<seq<string>>): (r: Result<seq<Currency.Record>>)
    ensures r.Ok? ==> |r.value| <= 1
    ensures r.Err? ==> r.error == ValueError
  {
    LooseRecordsShape(CodeAndDate, code, "", rows);
    LooseRecords(CodeAndDate, code, "", rows)
  }

  /** `fetch_currency_rates`: an `HTTPError` or `RequestException` is
      reported and then `return result` reads an unassigned local; a
      `ValueError` from parsing is not caught. */
  function FetchCurrencyRates(code: string, get: string -> Response): (r: Result<seq<Currency.Record>>)
    ensures get(RateUrl(code)).NoResponse? ==> r == Err(UnboundLocalError)
    ensures get(RateUrl(code)).Response? && RaisesForStatus(get(RateUrl(code)).status) ==> r == Err(UnboundLocalError)
    ensures r.Err? ==> r.error == UnboundLocalError || r.error == ValueError
  {
    match get(RateUrl(code))
    case NoResponse => Err(UnboundLocalError)
    case Response(status, page) =>
      if RaisesForStatus(status) then Err(UnboundLocalError)
      else ParseCurrencyRates(code, page.rows)
  }

  /** The record stores the code and the first row's date, and a card no
      row mentions stays `None`. */
  lemma ParseCurrencyRatesRecord(code: string, rows: seq<seq<string>>, i: nat, c: Card)
    requires ParseCurrencyRates(code, rows).Ok?
    requires FirstQualifying(rows, i)
    requires forall j :: !Labelled(rows, j, "currency") && !Labelled(rows, j, "更新日期") && !Labelled(rows, j, CardKey(c))
    ensures |ParseCurrencyRates(code, rows).value| == 1
    ensures ParseCurrencyRates(code, rows).value[0]["currency"] == Some(code)
    ensures ParseLoose(Cell(rows[i])).Ok?
    ensures ParseCurrencyRates(code, rows).value[0]["更新日期"] == Some(ParseLoose(Cell(rows[i])).value.1)
    ensures ParseCurrencyRates(code, rows).value[0][CardKey(c)] == None
  {
    LooseRecordsDate(CodeAndDate, code, "", rows, i);
    LooseRecordsNoCard(CodeAndDate, code, "", rows, c);
    FoldUntouched(rows, LoosePair, Folded(map[], None, None), "currency");
  }

  /** The catalog loop `country_code_dict[row["Country"]] = row["Code"]`. */
  function OverwriteFrom(rows: seq<Currency.CatalogRow>, d: Dict<string, string>): Dict<string, string>
    decreases |rows|
  {
    if rows == [] then d
    else OverwriteFrom(rows[1..], Put(d, rows[0].country, rows[0].code))
  }

  function OverwriteDict(rows: seq<Currency.CatalogRow>): Dict<string, string> {
    OverwriteFrom(rows, [])
  }

  /** A country no remaining row names reads as before. */
  lemma {:induction false} OverwriteUntouched(rows: seq<Currency.CatalogRow>, d: Dict<string, string>, k: string)
    requires forall j :: 0 <= j < |rows| ==> rows[j].country != k
    ensures Get(OverwriteFrom(rows, d), k) == Get(d, k)
    decreases |rows|
  {
    if rows != [] {
      assert rows[0].country != k;
      PutGet(d, rows[0].country, rows[0].code, k);
      forall j | 0 <= j < |rows[1..]|
        ensures rows[1..][j].country != k
      {
        assert rows[1..][j] == rows[j + 1];
      }
      OverwriteUntouched(rows[1..], Put(d, rows[0].country, rows[0].code), k);
    }
  }

  /** A country reads the code of the last row that names it. */
  lemma {:induction false} OverwriteLast(rows: seq<Currency.CatalogRow>, d: Dict<string, string>, i: nat)
    requires i < |rows|
    requires forall j :: i < j < |rows| ==> rows[j].country != rows[i].country
    ensures Get(OverwriteFrom(rows, d), rows[i].country) == Some(rows[i].code)
    decreases |rows|
  {
    var d' := Put(d, rows[0].country, rows[0].code);
    if i == 0 {
      PutGet(d, rows[0].country, rows[0].code, rows[0].country);
      forall j | 0 <= j < |rows[1..]|
        ensures rows[1..][j].country != rows[0].country
      {
        assert rows[1..][j] == rows[j + 1];
      }
      OverwriteUntouched(rows[1..], d', rows[0].country);
    } else {
      forall j | i - 1 < j < |rows[1..]|
        ensures rows[1..][j].country != rows[1..][i - 1].country
      {
        assert rows[1..][j] == rows[j + 1];
      }
      OverwriteLast(rows[1..], d', i - 1);
    }
  }

  /** The dict holds every country once, and a country absent from the
      catalog is absent from it. */
  lemma {:induction false} OverwriteDistinct(rows: seq<Currency.CatalogRow>, d: Dict<string, string>)
    requires DistinctKeys(d)
    ensures DistinctKeys(OverwriteFrom(rows, d))
    decreases |rows|
  {
    if rows != [] {
      PutDistinct(d, rows[0].country, rows[0].code);
      OverwriteDistinct(rows[1..], Put(d, rows[0].country, rows[0].code));
    }
  }

  /** `get_country_code_dict`: one fetch per dict entry, in dict order, the
      first failure escaping; the frame the loop concatenates (the method
      itself discards it and returns nothing). */
  function GetCountryCodeDict(catalog: seq<Currency.CatalogRow>, get: string -> Response): (r: Result<seq<Currency.Record>>)
  {
    var frames :- MapAll(OverwriteDict(catalog), (e: (string, string)) => FetchCurrencyRates(e.1, get));
    Ok(Flatten(frames))
  }

  /** The loop gets through exactly when every fetched code parses, and
      otherwise stops with the error of the first failing entry. */
  lemma GetCountryCodeDictFails(catalog: seq<Currency.CatalogRow>, get: string -> Response)
    ensures var d := OverwriteDict(catalog);
      && (GetCountryCodeDict(catalog, get).Ok? <==> forall i :: 0 <= i < |d| ==> FetchCurrencyRates(d[i].1, get).Ok?)
      && (GetCountryCodeDict(catalog, get).Err? ==>
            exists i :: 0 <= i < |d| && FetchCurrencyRates(d[i].1, get) == Err(GetCountryCodeDict(catalog, get).error))
  {
    var f := (e: (string, string)) => FetchCurrencyRates(e.1, get);
    MapAllSpec(OverwriteDict(catalog), f);
  }
}
