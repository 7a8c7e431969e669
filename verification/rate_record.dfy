/** The record a rate page folds into, in the two shapes the code base
    uses. The strict scrapers (src/igpf/currency_core.py,
    src/currency_core.py) start a dict with the currency code and name, set
    every row label to its cleaned rate, set `updated_time` to the date of
    the last row and build a `CurrencyRate` from it. The loose scrapers
    (src/currency.py, src/utils/currency_core.py, currency.py) create their
    dict at the first row, with that row's date and the three card fields
    set to `None`, and then set every row label likewise.
 */
module RateRecord {
  import opened Wrappers
  import opened PyStr
  import opened RateCell
  import opened RatePage

  /** The three cards of a rate page, with their row labels. */
  datatype Card = Jcb | Master | Visa

  function CardKey(c: Card): string {
    match c
    case Jcb => "JCB"
    case Master => "萬事達"
    case Visa => "VISA"
  }

  /** The pydantic `CurrencyRate`: the card fields are filled through their
      aliases and default to `None`. */
  datatype CurrencyRate = CurrencyRate(
    currencyEn: string,
    currencyCn: string,
    jcb: Option<string>,
    master: Option<string>,
    visa: Option<string>,
    updatedTime: string)
  {
    function Rate(c: Card): Option<string> {
      match c
      case Jcb => jcb
      case Master => master
      case Visa => visa
    }
  }

  /** `d.get(k)`. */
  function Lookup<V>(d: map<string, V>, k: string): (r: Option<V>)
    ensures r.Some? <==> k in d
    ensures r.Some? ==> r.value == d[k]
  {
    if k in d then Some(d[k]) else None
  }

  const CodeKey: string := "currency_en"
  const NameKey: string := "currency_cn"
  const TimeKey: string := "updated_time"

  /** `CurrencyRate(**result)`: the required fields by name, the cards by
      alias, other keys ignored. */
  function FromDict(d: map<string, string>): (r: CurrencyRate)
    requires CodeKey in d && NameKey in d && TimeKey in d
    ensures r.currencyEn == d[CodeKey] && r.currencyCn == d[NameKey] && r.updatedTime == d[TimeKey]
    ensures forall c: Card :: r.Rate(c) == Lookup(d, CardKey(c))
  {
    CurrencyRate(d[CodeKey], d[NameKey], Lookup(d, "JCB"), Lookup(d, "萬事達"), Lookup(d, "VISA"), d[TimeKey])
  }

  /** The strict cell parser as a (rate, date) pair. */
  function StrictPair(cell: string): (r: Result<(string, string)>)
    ensures r.Ok? <==> ParseStrict(cell).Ok?
    ensures r.Ok? ==> r.value == (ParseStrict(cell).value.rate, ParseStrict(cell).value.date)
    ensures r.Err? ==> r.error == ValueError
  {
    match ParseStrict(cell)
    case Ok(info) => Ok((info.rate, info.date))
    case Err(e) => Err(e)
  }

  /** The rows of `_get_currency_rate` / `fetch_currency_rates` after the
      name is known: the loop over the rows, then `result["updated_time"]`
      from the `currency_info` the loop left behind, which is unbound when no
      row took part. */
  function StrictRecord(code: string, name: string, rows: seq<seq<string>>): Result<CurrencyRate>
  {
    var d :- StrictDict(code, name, rows);
    Ok(FromDict(d))
  }

  /** The dict `result` just before `CurrencyRate(**result)`. */
  function StrictDict(code: string, name: string, rows: seq<seq<string>>): (r: Result<map<string, string>>)
    ensures r.Ok? ==> CodeKey in r.value && NameKey in r.value && TimeKey in r.value
  {
    var f :- FoldRows(rows, StrictPair, StrictStart(code, name));
    if f.last.None? then Err(UnboundLocalError)
    else Ok(f.rates[TimeKey := f.last.value])
  }

  /** `{"currency_en": code, "currency_cn": name}` before the loop. */
  function StrictStart(code: string, name: string): (acc: Folded)
    ensures acc.rates.Keys == {CodeKey, NameKey}
    ensures acc.rates[CodeKey] == code && acc.rates[NameKey] == name
    ensures acc.first.None? && acc.last.None?
  {
    Folded(map[CodeKey := code, NameKey := name], None, None)
  }

  /** A key other than `updated_time` reads what the loop left. */
  lemma StrictDictKey(code: string, name: string, rows: seq<seq<string>>, k: string)
    requires StrictDict(code, name, rows).Ok? && k != TimeKey
    ensures FoldRows(rows, StrictPair, StrictStart(code, name)).Ok?
    ensures Lookup(StrictDict(code, name, rows).value, k) == Lookup(FoldRows(rows, StrictPair, StrictStart(code, name)).value.rates, k)
  {
  }

  /** Some row takes part in the fold. */
  predicate AnyQualifies(rows: seq<seq<string>>) {
    exists i :: 0 <= i < |rows| && Qualifies(rows[i])
  }

  /** The strict record fails with `ValueError` on a cell with several
      `"("`, and otherwise with `UnboundLocalError` exactly when no row
      takes part. */
  lemma StrictRecordFails(code: string, name: string, rows: seq<seq<string>>)
    ensures (exists i :: BadRow(rows, StrictPair, i)) ==> StrictRecord(code, name, rows) == Err(ValueError)
    ensures (forall i :: !BadRow(rows, StrictPair, i)) ==>
      (StrictRecord(code, name, rows).Err? <==> !AnyQualifies(rows))
    ensures (forall i :: !BadRow(rows, StrictPair, i)) && !AnyQualifies(rows) ==>
      StrictRecord(code, name, rows) == Err(UnboundLocalError)
  {
    var acc := StrictStart(code, name);
    FoldFails(rows, StrictPair, acc);
    FoldErrorFrom(rows, StrictPair, acc, ValueError);
    if FoldRows(rows, StrictPair, acc).Ok? {
      FoldFindsDate(rows, StrictPair, acc);
    }
  }

  /** A card field holds the cleaned rate of the last row with that card's
      label. */
  lemma StrictRecordCard(code: string, name: string, rows: seq<seq<string>>, c: Card, i: nat)
    requires StrictRecord(code, name, rows).Ok?
    requires Labelled(rows, i, CardKey(c))
    requires forall j :: i < j ==> !Labelled(rows, j, CardKey(c))
    ensures ParseStrict(Cell(rows[i])).Ok?
    ensures StrictRecord(code, name, rows).value.Rate(c) == Some(ParseStrict(Cell(rows[i])).value.rate)
  {
    var acc := StrictStart(code, name);
    StrictDictKey(code, name, rows, CardKey(c));
    FoldLastWins(rows, StrictPair, acc, i, CardKey(c));
  }

  /** A card no row mentions stays `None`. */
  lemma StrictRecordNoCard(code: string, name: string, rows: seq<seq<string>>, c: Card)
    requires StrictRecord(code, name, rows).Ok?
    requires forall j :: !Labelled(rows, j, CardKey(c))
    ensures StrictRecord(code, name, rows).value.Rate(c) == None
  {
    var acc := StrictStart(code, name);
    StrictDictKey(code, name, rows, CardKey(c));
    FoldUntouched(rows, StrictPair, acc, CardKey(c));
  }

  /** `updated_time` is the date of the last row that takes part. */
  lemma StrictRecordDate(code: string, name: string, rows: seq<seq<string>>, i: nat)
    requires StrictRecord(code, name, rows).Ok?
    requires LastQualifying(rows, i)
    ensures ParseStrict(Cell(rows[i])).Ok?
    ensures StrictRecord(code, name, rows).value.updatedTime == ParseStrict(Cell(rows[i])).value.date
  {
    var acc := StrictStart(code, name);
    FoldLastDate(rows, StrictPair, acc, i);
  }

  /** Unless a row is labelled like them, the code and the name are the ones
      passed in. */
  lemma StrictRecordNames(code: string, name: string, rows: seq<seq<string>>)
    requires StrictRecord(code, name, rows).Ok?
    requires forall j :: !Labelled(rows, j, CodeKey) && !Labelled(rows, j, NameKey)
    ensures StrictRecord(code, name, rows).value.currencyEn == code
    ensures StrictRecord(code, name, rows).value.currencyCn == name
  {
    var acc := StrictStart(code, name);
    FoldUntouched(rows, StrictPair, acc, CodeKey);
    FoldUntouched(rows, StrictPair, acc, NameKey);
  }

  /** The loose cell parser, with the rate cleaned as the loop does right
      after the call. */
  function LoosePair(cell: string): (r: Result<(string, string)>)
    ensures r.Ok? <==> ParseLoose(cell).Ok?
    ensures r.Ok? ==> r.value == (CleanRate(ParseLoose(cell).value.0), ParseLoose(cell).value.1)
    ensures r.Err? ==> r.error == ValueError
  {
    match ParseLoose(cell)
    case Ok(p) => Ok((CleanRate(p.0), p.1))
    case Err(e) => Err(e)
  }

  /** The keys of the loose record: src/currency.py and
      src/utils/currency_core.py also store the currency name; currency.py
      names its keys differently. */
  datatype KeyScheme = WithName | CodeAndDate

  function CodeField(k: KeyScheme): string {
    match k
    case WithName => "Currency"
    case CodeAndDate => "currency"
  }

  function DateField(k: KeyScheme): string {
    match k
    case WithName => "Updated_date"
    case CodeAndDate => "更新日期"
  }

  /** The dict created at the first row that takes part. */
  function FreshRecord(k: KeyScheme, code: string, name: string, date: string): (r: map<string, Option<string>>)
    ensures CodeField(k) in r && DateField(k) in r
    ensures r[CodeField(k)] == Some(code) && r[DateField(k)] == Some(date)
    ensures forall c: Card :: CardKey(c) in r && r[CardKey(c)] == None
    ensures k == WithName ==> "Currency_CN" in r && r["Currency_CN"] == Some(name)
  {
    var cards := map["JCB" := None, "萬事達" := None, "VISA" := None];
    match k
    case WithName =>
      map["Currency" := Some(code), "Currency_CN" := Some(name), "Updated_date" := Some(date)] + cards
    case CodeAndDate =>
      map["currency" := Some(code), "更新日期" := Some(date)] + cards
  }

  /** Every stored rate as a present value. */
  function Present(m: map<string, string>): (r: map<string, Option<string>>)
    ensures r.Keys == m.Keys
    ensures forall k :: k in m ==> r[k] == Some(m[k])
  {
    map k | k in m :: Some(m[k])
  }

  /** `parse_currency_rates`: `country_rates.values()`, empty when no row
      takes part and otherwise the one dict. The dict is created at the
      first row and then every row sets its label, so it ends as the fresh
      record overwritten by the last rate of every label. */
  function LooseRecords(k: KeyScheme, code: string, name: string, rows: seq<seq<string>>): (r: Result<seq<map<string, Option<string>>>>)
    ensures r.Ok? ==> |r.value| <= 1
  {
    var f :- FoldRows(rows, LoosePair, Folded(map[], None, None));
    if f.first.None? then Ok([])
    else Ok([FreshRecord(k, code, name, f.first.value) + Present(f.rates)])
  }

  /** The loose parse fails with `ValueError` exactly on a cell with several
      `"("`; otherwise there is one record exactly when some row takes
      part. */
  lemma LooseRecordsShape(k: KeyScheme, code: string, name: string, rows: seq<seq<string>>)
    ensures LooseRecords(k, code, name, rows).Err? <==> exists i :: BadRow(rows, LoosePair, i)
    ensures LooseRecords(k, code, name, rows).Err? ==> LooseRecords(k, code, name, rows).error == ValueError
    ensures LooseRecords(k, code, name, rows).Ok? ==> (|LooseRecords(k, code, name, rows).value| == 1 <==> AnyQualifies(rows))
  {
    var acc := Folded(map[], None, None);
    FoldFails(rows, LoosePair, acc);
    FoldErrorFrom(rows, LoosePair, acc, ValueError);
    if FoldRows(rows, LoosePair, acc).Ok? {
      FoldFindsDate(rows, LoosePair, acc);
    }
  }

  /** The record's date is the first row's, unless a row is labelled like
      the date field. */
  lemma LooseRecordsDate(k: KeyScheme, code: string, name: string, rows: seq<seq<string>>, i: nat)
    requires LooseRecords(k, code, name, rows).Ok?
    requires FirstQualifying(rows, i)
    requires forall j :: !Labelled(rows, j, DateField(k))
    ensures ParseLoose(Cell(rows[i])).Ok?
    ensures |LooseRecords(k, code, name, rows).value| == 1
    ensures LooseRecords(k, code, name, rows).value[0][DateField(k)] == Some(ParseLoose(Cell(rows[i])).value.1)
  {
    var acc := Folded(map[], None, None);
    FoldFirstDate(rows, LoosePair, acc, i);
    FoldUntouched(rows, LoosePair, acc, DateField(k));
  }

  /** A card holds the cleaned rate of the last row with its label. */
  lemma LooseRecordsCard(k: KeyScheme, code: string, name: string, rows: seq<seq<string>>, c: Card, i: nat)
    requires LooseRecords(k, code, name, rows).Ok?
    requires Labelled(rows, i, CardKey(c))
    requires forall j :: i < j ==> !Labelled(rows, j, CardKey(c))
    ensures ParseLoose(Cell(rows[i])).Ok?
    ensures |LooseRecords(k, code, name, rows).value| == 1
    ensures LooseRecords(k, code, name, rows).value[0][CardKey(c)] == Some(CleanRate(ParseLoose(Cell(rows[i])).value.0))
  {
    var acc := Folded(map[], None, None);
    FoldLastWins(rows, LoosePair, acc, i, CardKey(c));
    FoldFindsDate(rows, LoosePair, acc);
  }

  /** A card no row mentions stays `None`. */
  lemma LooseRecordsNoCard(k: KeyScheme, code: string, name: string, rows: seq<seq<string>>, c: Card)
    requires LooseRecords(k, code, name, rows).Ok? && |LooseRecords(k, code, name, rows).value| == 1
    requires forall j :: !Labelled(rows, j, CardKey(c))
    ensures CardKey(c) in LooseRecords(k, code, name, rows).value[0]
    ensures LooseRecords(k, code, name, rows).value[0][CardKey(c)] == None
  {
    var acc := Folded(map[], None, None);
    FoldUntouched(rows, LoosePair, acc, CardKey(c));
  }
}
