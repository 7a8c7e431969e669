/** src/currency.py: `CurrencyRate` scrapes one currency into at most one
    loose record and swallows every error into `None`; `DataParser` picks one
    country per currency code from the catalog, fetches each code and
    right-joins the results back onto the catalog, one row per country.
 */
module Currency {
  import opened Wrappers
  import PyStr
  import RateCell
  import opened Seqs
  import opened Tables
  import opened RatePage
  import opened RateRecord

  /** One loose record: a dict whose values may be `None`. */
  type Record = map<string, Option<string>>

  /** `parse_currency_rates`: the display name (or the placeholder), then
      the rows. */
  function ParseCurrencyRates(code: string, page: Page): (r: Result<seq<Record>>)
    ensures r.Ok? ==> |r.value| <= 1
  {
    var name :- NameOrPlaceholder(page.ccyAnchor);
    LooseRecords(WithName, code, name, page.rows)
  }

  /** A menu anchor without `" - "` raises `IndexError`; otherwise parsing
      fails exactly on a cell with several `"("`. */
  lemma ParseCurrencyRatesFails(code: string, page: Page)
    ensures page.ccyAnchor.Some? && !PyStr.Contains(page.ccyAnchor.value, " - ") ==> ParseCurrencyRates(code, page) == Err(IndexError)
    ensures NameOrPlaceholder(page.ccyAnchor).Ok? ==>
      (ParseCurrencyRates(code, page).Err? <==> exists i :: BadRow(page.rows, LoosePair, i))
  {
    if page.ccyAnchor.Some? {
      RateCell.DisplayNameFails(page.ccyAnchor.value);
    }
    if NameOrPlaceholder(page.ccyAnchor).Ok? {
      LooseRecordsShape(WithName, code, NameOrPlaceholder(page.ccyAnchor).value, page.rows);
    }
  }

  /** The record's Chinese name is the anchor's display name, or the
      placeholder when the page has no anchor, unless a row is labelled
      `Currency_CN`. */
  lemma ParseCurrencyRatesName(code: string, page: Page)
    requires ParseCurrencyRates(code, page).Ok? && |ParseCurrencyRates(code, page).value| == 1
    requires forall j :: !Labelled(page.rows, j, "Currency_CN")
    ensures "Currency_CN" in ParseCurrencyRates(code, page).value[0]
    ensures page.ccyAnchor.None? ==> ParseCurrencyRates(code, page).value[0]["Currency_CN"] == Some(NoName)
    ensures page.ccyAnchor.Some? ==>
      ParseCurrencyRates(code, page).value[0]["Currency_CN"] == Some(RateCell.DisplayName(page.ccyAnchor.value).value)
  {
    FoldUntouched(page.rows, LoosePair, Folded(map[], None, None), "Currency_CN");
  }

  /** `fetch_currency_rates`: `None` when the request fails, when the status
      is a client or server error, or when parsing raises; the parsed
      records otherwise. */
  function FetchCurrencyRates(code: string, get: string -> Response): (r: Option<seq<Record>>)
    ensures r.Some? <==>
      get(RateUrl(code)).Response? && !RaisesForStatus(get(RateUrl(code)).status)
      && ParseCurrencyRates(code, get(RateUrl(code)).page).Ok?
    ensures r.Some? ==> r.value == ParseCurrencyRates(code, get(RateUrl(code)).page).value
  {
    match get(RateUrl(code))
    case NoResponse => None
    case Response(status, page) =>
      if RaisesForStatus(status) then None
      else ParseCurrencyRates(code, page).ToOption()
  }

  /** A row of the catalog CSV. */
  datatype CatalogRow = CatalogRow(country: string, code: string, countryCode: string)

  function CountryOf(r: CatalogRow): string { r.country }
  function CodeOf(r: CatalogRow): string { r.code }
  function Entry(r: CatalogRow): (string, string) { (r.country, r.code) }

  /** The loop of `get_country_code_dict`: a row is stored under its
      country only when its code is not yet among the dict's values. */
  function CodeDictFrom(rows: seq<CatalogRow>, d: Dict<string, string>): Dict<string, string>
    decreases |rows|
  {
    if rows == [] then d
    else if rows[0].code in Values(d) then CodeDictFrom(rows[1..], d)
    else CodeDictFrom(rows[1..], Put(d, rows[0].country, rows[0].code))
  }

  function CodeDict(rows: seq<CatalogRow>): Dict<string, string> {
    CodeDictFrom(rows, [])
  }

  /** In a dict with distinct values, two entries with one value are the
      same entry. */
  lemma SameValueSameEntry(d: Dict<string, string>, a: (string, string), b: (string, string))
    requires DistinctValues(d) && a in d && b in d && a.1 == b.1
    ensures a == b
  {
    var x :| 0 <= x < |d| && d[x] == a;
    var y :| 0 <= y < |d| && d[y] == b;
  }

  /** A stored entry's value is among the values. */
  lemma EntryValue(d: Dict<string, string>, e: (string, string))
    requires e in d
    ensures e.1 in Values(d)
  {
    var x :| 0 <= x < |d| && d[x] == e;
    assert Values(d)[x] == e.1;
  }

  /** Storing a code that is not yet a value keeps keys and values
      distinct. */
  lemma PutFreshValue(d: Dict<string, string>, k: string, v: string)
    requires DistinctKeys(d) && DistinctValues(d) && v !in Values(d)
    ensures DistinctKeys(Put(d, k, v)) && DistinctValues(Put(d, k, v))
  {
    PutDistinct(d, k, v);
    var r := Put(d, k, v);
    forall i, j | 0 <= i < j < |r|
      ensures r[i].1 != r[j].1
    {
      assert r[i].0 != r[j].0;
      if r[i] in d && r[j] in d {
        if r[i].1 == r[j].1 {
          SameValueSameEntry(d, r[i], r[j]);
        }
      } else if r[i] in d {
        EntryValue(d, r[i]);
      } else if r[j] in d {
        EntryValue(d, r[j]);
      }
    }
  }

  /** The dict never holds a country twice nor a code twice: countries that
      share a currency are fetched once. */
  lemma {:induction false} CodeDictDistinct(rows: seq<CatalogRow>, d: Dict<string, string>)
    requires DistinctKeys(d) && DistinctValues(d)
    ensures DistinctKeys(CodeDictFrom(rows, d)) && DistinctValues(CodeDictFrom(rows, d))
    decreases |rows|
  {
    if rows != [] {
      if rows[0].code in Values(d) {
        CodeDictDistinct(rows[1..], d);
      } else {
        PutFreshValue(d, rows[0].country, rows[0].code);
        CodeDictDistinct(rows[1..], Put(d, rows[0].country, rows[0].code));
      }
    }
  }

  /** Dropping the first catalog row keeps countries distinct and unknown
      to the dict. */
  lemma CodeDictTail(rows: seq<CatalogRow>, d: Dict<string, string>)
    requires rows != [] && KeysDistinct(rows, CountryOf)
    requires forall i :: 0 <= i < |rows| ==> rows[i].country !in Keys(d)
    ensures KeysDistinct(rows[1..], CountryOf)
    ensures forall i :: 0 <= i < |rows| - 1 ==> rows[1..][i].country !in Keys(d + [Entry(rows[0])])
  {
    var t := rows[1..];
    forall i, j | 0 <= i < j < |t|
      ensures CountryOf(t[i]) != CountryOf(t[j])
    {
      assert CountryOf(rows[i + 1]) != CountryOf(rows[j + 1]);
    }
    AppendEntry(d, Entry(rows[0]));
    forall i | 0 <= i < |t|
      ensures t[i].country !in Keys(d + [Entry(rows[0])])
    {
      assert t[i] == rows[i + 1];
      assert CountryOf(rows[0]) != CountryOf(rows[i + 1]);
    }
  }

  lemma MapCons<T, U>(x: T, xs: seq<T>, f: T -> U)
    ensures Map([x] + xs, f) == [f(x)] + Map(xs, f)
  {
  }

  /** One step of the scan on a row whose code is new: the row's entry is
      appended, as `drop_duplicates` keeps the row. */
  lemma {:induction false} CodeDictFresh(rows: seq<CatalogRow>, d: Dict<string, string>)
    requires rows != [] && rows[0].code !in Values(d) && rows[0].country !in Keys(d)
    requires CodeDictFrom(rows[1..], d + [Entry(rows[0])])
      == d + [Entry(rows[0])] + Map(DedupFrom(rows[1..], CodeOf, ValueSet(d) + {rows[0].code}), Entry)
    ensures CodeDictFrom(rows, d) == d + Map(DedupFrom(rows, CodeOf, ValueSet(d)), Entry)
  {
    var r0 := rows[0];
    var kept := DedupFrom(rows[1..], CodeOf, ValueSet(d) + {r0.code});
    calc {
      CodeDictFrom(rows, d);
      { PutNew(d, r0.country, r0.code); }
      CodeDictFrom(rows[1..], d + [Entry(r0)]);
      d + [Entry(r0)] + Map(kept, Entry);
      { MapCons(r0, kept, Entry); }
      d + Map([r0] + kept, Entry);
      d + Map(DedupFrom(rows, CodeOf, ValueSet(d)), Entry);
    }
  }

  /** With distinct countries in the catalog, the scan is a
      `drop_duplicates` on the code that keeps the first row: the dict
      lists, in catalog order, the first country of every currency. */
  lemma {:induction false} CodeDictFromDedup(rows: seq<CatalogRow>, d: Dict<string, string>)
    requires KeysDistinct(rows, CountryOf)
    requires forall i :: 0 <= i < |rows| ==> rows[i].country !in Keys(d)
    ensures CodeDictFrom(rows, d) == d + Map(DedupFrom(rows, CodeOf, ValueSet(d)), Entry)
    decreases |rows|
  {
    if rows == [] {
      assert d + Map([], Entry) == d;
    } else {
      CodeDictTail(rows, d);
      if rows[0].code in Values(d) {
        CodeDictFromDedup(rows[1..], d);
      } else {
        ValueSetAppend(d, Entry(rows[0]));
        CodeDictFromDedup(rows[1..], d + [Entry(rows[0])]);
        CodeDictFresh(rows, d);
      }
    }
  }

  lemma CodeDictDedup(rows: seq<CatalogRow>)
    requires KeysDistinct(rows, CountryOf)
    ensures CodeDict(rows) == Map(DedupBy(rows, CodeOf), Entry)
  {
    CodeDictFromDedup(rows, []);
    var empty: Dict<string, string> := [];
    assert ValueSet(empty) == {};
  }

  /** A row of the combined table: the catalog's country columns and the
      rate record's columns, missing when no record matched. */
  datatype CombinedRow = CombinedRow(
    country: string,
    countryCode: string,
    currency: Option<string>,
    currencyCn: Option<string>,
    updatedDate: Option<string>,
    jcb: Option<string>,
    master: Option<string>,
    visa: Option<string>)

  /** A record column of a merged row; a column absent or `None` in the
      record, or a row without record, is missing. */
  function Field(rec: Option<Record>, k: string): Option<string> {
    if rec.Some? && k in rec.value then rec.value[k] else None
  }

  /** `left_on="Currency", right_on="Code"`. */
  predicate SameCurrency(c: CatalogRow, rec: Record) {
    Field(Some(rec), "Currency") == Some(c.code)
  }

  /** A column of a record, missing when the record lacks it. */
  function Column(rec: Record, k: string): Option<string> {
    if k in rec then rec[k] else None
  }

  /** The six rate columns of a combined row are those of `rec`. */
  predicate Carries(o: CombinedRow, rec: Record) {
    && o.currency == Column(rec, "Currency") && o.currencyCn == Column(rec, "Currency_CN")
    && o.updatedDate == Column(rec, "Updated_date") && o.jcb == Column(rec, "JCB")
    && o.master == Column(rec, "萬事達") && o.visa == Column(rec, "VISA")
  }

  /** A combined row without a rate record: NaN in all six rate columns. */
  predicate Unmatched(o: CombinedRow) {
    && o.currency.None? && o.currencyCn.None? && o.updatedDate.None?
    && o.jcb.None? && o.master.None? && o.visa.None?
  }

  /** The projection to the eight output columns: the country columns
      come from the catalog, the other six from the matched record, or are
      all missing without one. */
  function Project(p: (CatalogRow, Option<Record>)): (o: CombinedRow)
    ensures o.country == p.0.country && o.countryCode == p.0.countryCode
    ensures p.1.Some? ==> Carries(o, p.1.value)
    ensures p.1.None? ==> Unmatched(o)
  {
    CombinedRow(p.0.country, p.0.countryCode, Field(p.1, "Currency"), Field(p.1, "Currency_CN"),
      Field(p.1, "Updated_date"), Field(p.1, "JCB"), Field(p.1, "萬事達"), Field(p.1, "VISA"))
  }

  function CombinedCountry(o: CombinedRow): string { o.country }

  /** `__combine_currency_rates`: right merge onto the catalog, projection,
      then `drop_duplicates(subset="Country")`. With no fetched record at
      all the frame has no `Currency` column and the merge raises
      `KeyError`. */
  function Combine(catalog: seq<CatalogRow>, results: seq<Record>): (r: Result<seq<CombinedRow>>)
    ensures r.Err? <==> results == []
  {
    if results == [] then Err(KeyError)
    else Ok(DedupBy(Map(OuterJoin(catalog, results, SameCurrency), Project), CombinedCountry))
  }

  /** Every country of the catalog appears in the combined table, and
      only once. */
  lemma CombineCovers(catalog: seq<CatalogRow>, results: seq<Record>, c: CatalogRow)
    requires results != [] && c in catalog
    ensures KeysDistinct(Combine(catalog, results).value, CombinedCountry)
    ensures exists o :: o in Combine(catalog, results).value && o.country == c.country
  {
    var joined := OuterJoin(catalog, results, SameCurrency);
    var rows := Map(joined, Project);
    DedupByProperties(rows, CombinedCountry);
    OuterJoinComplete(catalog, results, SameCurrency, c);
    var p: Option<Record> :| (c, p) in joined by {
      if exists b :: b in results && SameCurrency(c, b) {
        var b :| b in results && SameCurrency(c, b);
        assert (c, Some(b)) in joined;
      } else {
        assert (c, None) in joined;
      }
    }
    var k :| 0 <= k < |joined| && joined[k] == (c, p);
    assert rows[k].country == c.country;
    FindFirst(rows, CombinedCountry, k);
    var j :| 0 <= j <= k && FirstWithKey(rows, CombinedCountry, j) && CombinedCountry(rows[j]) == CombinedCountry(rows[k]);
    assert rows[j] in Combine(catalog, results).value;
  }

  /** Every combined row carries a catalog row's country and country code,
      and either the rate columns of a fetched record with that row's code,
      or no rate columns at all when no fetched record has that code. */
  lemma CombineSound(catalog: seq<CatalogRow>, results: seq<Record>, o: CombinedRow)
    requires Combine(catalog, results).Ok? && o in Combine(catalog, results).value
    ensures exists c :: (
      && c in catalog && o.country == c.country && o.countryCode == c.countryCode
      && ((exists m :: m in results && SameCurrency(c, m) && Carries(o, m))
          || (Unmatched(o) && forall b :: b in results ==> !SameCurrency(c, b))))
  {
    var joined := OuterJoin(catalog, results, SameCurrency);
    var rows := Map(joined, Project);
    DedupByProperties(rows, CombinedCountry);
    var k :| 0 <= k < |rows| && rows[k] == o;
    var (c, m) := joined[k];
    assert joined[k] in joined;
    OuterJoinSound(catalog, results, SameCurrency, c, m);
    assert o == Project((c, m));
    if m.Some? {
      assert m.value in results && SameCurrency(c, m.value) && Carries(o, m.value);
    }
  }

  /** An absent result contributes an empty frame to the concatenation. */
  function Frame(fetched: Option<seq<Record>>): seq<Record> {
    match fetched
    case None => []
    case Some(records) => records
  }

  /** `get_country_code_dict`: the code dict, one fetch per entry in dict
      order, the concatenated results, and the combination with the whole
      catalog. */
  function GetCountryCodeDict(catalog: seq<CatalogRow>, get: string -> Response): (r: Result<seq<CombinedRow>>)
  {
    var d := CodeDict(catalog);
    var results := Flatten(Map(d, (e: (string, string)) => Frame(FetchCurrencyRates(e.1, get))));
    Combine(catalog, results)
  }

  /** The pipeline fails exactly when no fetch produced a record; then every
      catalog country is in its output once. */
  lemma GetCountryCodeDictCovers(catalog: seq<CatalogRow>, get: string -> Response, c: CatalogRow)
    requires GetCountryCodeDict(catalog, get).Ok? && c in catalog
    ensures exists o :: o in GetCountryCodeDict(catalog, get).value && o.country == c.country
    ensures KeysDistinct(GetCountryCodeDict(catalog, get).value, CombinedCountry)
  {
    var d := CodeDict(catalog);
    var results := Flatten(Map(d, (e: (string, string)) => Frame(FetchCurrencyRates(e.1, get))));
    CombineCovers(catalog, results, c);
  }
}
