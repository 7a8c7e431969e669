/** The spreadsheet builders of src/get_currency_rate.py,
    src/get_currency_rate_async.py (the same loop, awaited) and
    src/deprecated/get_currency_rate.py: for every target country, three
    texts read off the rate page, the master cell split into rate and date,
    and one sheet row whose formulas refer to the country's own spreadsheet
    row. A country whose page fails is skipped. The browser is the parameter
    `scrape`.
 */
module RateSheet {
  import opened Wrappers
  import opened PyStr
  import opened Seqs
  import opened Regex
  import opened RateRecord

  /** The three locators the loop reads, in order. */
  datatype Selector = VisaRate | MasterCell | JcbRate

  /** The text of a locator on the page of a key; `None` when the page or the
      locator times out. */
  type Scraper = (string, Selector) -> Option<string>

  /** The `金額` column. */
  const Amount: int := 2990

  /** `f"=C{n}*{col}{n}*1.5"`. */
  function Formula(col: char, n: nat): string {
    "=C" + NatToDecimal(n) + "*" + [col] + NatToDecimal(n) + "*1.5"
  }

  /** The spreadsheet row a formula multiplies from: the digits after
      `"=C"` up to the first `"*"`. */
  function ReferencedRow(f: string): (r: Option<nat>)
    ensures r.Some? ==> |f| >= 2 && f[..2] == "=C"
  {
    if |f| < 2 || f[..2] != "=C" then None
    else
      var digits := Before(f[2..], "*");
      if digits != [] && forall i :: 0 <= i < |digits| ==> IsDigit(digits[i])
      then Some(DecimalToNat(digits))
      else None
  }

  /** Every formula refers to the row it was built for. */
  lemma FormulaRow(col: char, n: nat)
    ensures ReferencedRow(Formula(col, n)) == Some(n)
  {
    var f := Formula(col, n);
    var digits := NatToDecimal(n);
    var rest := "*" + [col] + digits + "*1.5";
    assert f == "=C" + (digits + rest);
    assert f[2..] == digits + rest;
    assert IsAt(rest, "*", 0);
    NatToDecimalDigits(n);
    BeforeFirst(digits, "*", rest);
    DecimalRoundTrip(n);
  }

  /** The spreadsheet column a formula multiplies the amount by: the
      letter after the first `"*"`. */
  function ReferencedColumn(f: string): Option<char> {
    match IndexFrom(f, "*", 0)
    case Some(k) => if k + 1 < |f| then Some(f[k + 1]) else None
    case None => None
  }

  /** Every formula multiplies by the column it was built with. */
  lemma FormulaColumn(col: char, n: nat)
    ensures ReferencedColumn(Formula(col, n)) == Some(col)
  {
    var lead := "=C" + NatToDecimal(n);
    var rest := "*" + [col] + NatToDecimal(n) + "*1.5";
    assert Formula(col, n) == lead + rest;
    NatToDecimalDigits(n);
    assert '*' !in lead by {
      forall k | 0 <= k < |lead|
        ensures lead[k] != '*'
      {
        if k >= 2 {
          assert lead[k] == NatToDecimal(n)[k - 2];
        }
      }
    }
    assert IsAt(rest, "*", 0);
    FirstAt(lead, "*", rest);
    assert (lead + rest)[|lead| + 1] == col;
  }

  /** The sheet's header, column A first: the keys of the row dict in
      order, written without an index column. */
  const Header: seq<string> := ["國家", "幣值", "金額", "更新時間", "Visa匯率", "Visa 試算結果",
    "Master匯率", "Master 試算結果", "JCB匯率", "JCB 試算結果"]

  /** The header over a column letter; `None` past the last column. */
  function HeaderAt(col: char): (r: Option<string>)
    ensures r.Some? <==> 'A' <= col && (col as int) - ('A' as int) < |Header|
  {
    if 'A' <= col && (col as int) - ('A' as int) < |Header| then Some(Header[(col as int) - ('A' as int)])
    else None
  }

  /** `get_date(master_info).split("\xa0")` unpacked into two names. */
  function MasterSplit(info: string): (r: Option<(string, string)>)
    ensures r.Some? <==> |Split(GetDate(info), [Nbsp])| == 2
  {
    var parts := Split(GetDate(info), [Nbsp]);
    if |parts| == 2 then Some((parts[0], parts[1])) else None
  }

  /** The split succeeds exactly when the cell holds one U+00A0. */
  lemma MasterSplitFails(info: string)
    ensures MasterSplit(info).Some? <==> multiset(info)[Nbsp] == 1
  {
    SplitCharCount(GetDate(info), Nbsp);
    GetDateCounts(info, Nbsp);
  }

  /** A cell `rate U+00A0 (date)` gives the rate and the bare date. */
  lemma MasterSplitOf(rate: string, date: string)
    requires Nbsp !in rate && Nbsp !in date
    requires '(' !in rate && ')' !in rate && '(' !in date && ')' !in date
    ensures MasterSplit(rate + [Nbsp] + ("(" + date + ")")) == Some((rate, date))
  {
    GetDateAppend(rate + [Nbsp], "(" + date + ")");
    GetDateAppend(rate, [Nbsp]);
    GetDateIdempotent(rate);
    GetDateIdempotent([Nbsp]);
    GetDateUnwraps(date);
    assert GetDate(rate + [Nbsp] + ("(" + date + ")")) == rate + [Nbsp] + date;
    SplitCharOnce(rate, Nbsp, date);
  }

  /** What one page gives: the Visa text, the master rate and date, the
      JCB text. */
  datatype Scraped = Scraped(visa: string, master: string, date: string, jcb: string)

  /** The `try` block up to the row dicts: any timeout or a master cell that
      does not split in two raises, and the country is skipped. */
  function ScrapePage(key: string, scrape: Scraper): (r: Option<Scraped>)
    ensures r.Some? <==> (
      && scrape(key, VisaRate).Some? && scrape(key, MasterCell).Some?
      && MasterSplit(scrape(key, MasterCell).value).Some? && scrape(key, JcbRate).Some?)
    ensures r.Some? ==> r.value.visa == scrape(key, VisaRate).value && r.value.jcb == scrape(key, JcbRate).value
    ensures r.Some? ==> (r.value.master, r.value.date) == MasterSplit(scrape(key, MasterCell).value).value
  {
    var visa :- scrape(key, VisaRate);
    var info :- scrape(key, MasterCell);
    var split :- MasterSplit(info);
    var jcb :- scrape(key, JcbRate);
    Some(Scraped(visa, split.0, split.1, jcb))
  }

  /** The row of the sheet, `data`. */
  datatype SheetRow = SheetRow(
    country: Option<string>,
    currency: Option<string>,
    amount: int,
    updated: string,
    visa: string,
    visaFormula: string,
    master: string,
    masterFormula: string,
    jcb: string,
    jcbFormula: string)

  /** The sheet row of the `i`-th target: spreadsheet row `i + 2`, below the
      header. */
  function SheetRowOf(i: nat, country: Option<string>, currency: Option<string>, s: Scraped): (row: SheetRow)
    ensures ReferencedRow(row.visaFormula) == Some(i + 2)
    ensures ReferencedRow(row.masterFormula) == Some(i + 2)
    ensures ReferencedRow(row.jcbFormula) == Some(i + 2)
  {
    FormulaRow('E', i + 2);
    FormulaRow('H', i + 2);
    FormulaRow('K', i + 2);
    SheetRow(country, currency, Amount, s.date, s.visa, Formula('E', i + 2), s.master, Formula('H', i + 2),
      s.jcb, Formula('K', i + 2))
  }

  /** The header of the column a formula multiplies by. */
  function ReadsHeader(f: string): Option<string> {
    match ReferencedColumn(f)
    case Some(col) => HeaderAt(col)
    case None => None
  }

  /** The headers over the columns the formulas name. */
  lemma HeaderLetters()
    ensures HeaderAt('E') == Some("Visa匯率") && HeaderAt('G') == Some("Master匯率")
    ensures HeaderAt('H') == Some("Master 試算結果") && HeaderAt('I') == Some("JCB匯率")
    ensures HeaderAt('K') == None
  {
  }

  /** The Master formula of a sheet row multiplies by its own cell, and the
      JCB formula by a column past the last: only the Visa formula reads
      its rate. */
  lemma SheetRowColumns(i: nat, country: Option<string>, currency: Option<string>, s: Scraped)
    ensures var row := SheetRowOf(i, country, currency, s);
      && ReadsHeader(row.visaFormula) == Some("Visa匯率")
      && ReadsHeader(row.masterFormula) == Some("Master 試算結果")
      && ReadsHeader(row.jcbFormula) == None
  {
    var row := SheetRowOf(i, country, currency, s);
    FormulaColumn('E', i + 2);
    FormulaColumn('H', i + 2);
    FormulaColumn('K', i + 2);
    assert ReferencedColumn(row.visaFormula) == Some('E');
    assert ReferencedColumn(row.masterFormula) == Some('H');
    assert ReferencedColumn(row.jcbFormula) == Some('K');
    HeaderLetters();
  }

  /** The sheet row with each formula on its card's rate column, the
      column just left of the formula. */
  function SheetRowOfIntended(i: nat, country: Option<string>, currency: Option<string>, s: Scraped): (row: SheetRow)
    ensures ReferencedRow(row.visaFormula) == Some(i + 2)
    ensures ReferencedRow(row.masterFormula) == Some(i + 2)
    ensures ReferencedRow(row.jcbFormula) == Some(i + 2)
    ensures ReadsHeader(row.visaFormula) == Some("Visa匯率")
    ensures ReadsHeader(row.masterFormula) == Some("Master匯率")
    ensures ReadsHeader(row.jcbFormula) == Some("JCB匯率")
  {
    FormulaRow('E', i + 2);
    FormulaRow('G', i + 2);
    FormulaRow('I', i + 2);
    FormulaColumn('E', i + 2);
    FormulaColumn('G', i + 2);
    FormulaColumn('I', i + 2);
    HeaderLetters();
    SheetRow(country, currency, Amount, s.date, s.visa, Formula('E', i + 2), s.master, Formula('G', i + 2),
      s.jcb, Formula('I', i + 2))
  }

  /** The row of the CSV, `data_csv`. */
  datatype CsvRow = CsvRow(country: string, currency: string, visa: string, master: string, jcb: string, updated: string)

  /** One target of src/get_currency_rate.py: the currency code, which
      names the page, and the Chinese country name. */
  type Target = (string, string)

  function TargetRows(e: (nat, Target), scrape: Scraper): Option<(SheetRow, CsvRow)> {
    var (i, (country, chinese)) := e;
    match ScrapePage(country, scrape)
    case None => None
    case Some(s) => Some((SheetRowOf(i, Some(chinese), Some(country), s), CsvRow(chinese, country, s.visa, s.master, s.jcb, s.date)))
  }

  /** `get_default_country`: the rows of the targets whose pages succeed,
      in target order, each numbered by its position among all targets. */
  function Sheet(targets: seq<Target>, scrape: Scraper): (r: seq<(SheetRow, CsvRow)>)
    ensures |r| <= |targets|
  {
    Collect(Enumerate(targets), e => TargetRows(e, scrape))
  }

  /** A row is produced for a target exactly when its page succeeds. */
  lemma SheetMembers(targets: seq<Target>, scrape: Scraper, row: (SheetRow, CsvRow))
    ensures row in Sheet(targets, scrape) <==>
      exists i :: 0 <= i < |targets| && TargetRows((i, targets[i]), scrape) == Some(row)
  {
    var en := Enumerate(targets);
    var f := e => TargetRows(e, scrape);
    CollectMembers(en, f, row);
    if row in Sheet(targets, scrape) {
      var i :| 0 <= i < |en| && f(en[i]) == Some(row);
      assert en[i] == (i, targets[i]);
    }
    if exists i :: 0 <= i < |targets| && TargetRows((i, targets[i]), scrape) == Some(row) {
      var i :| 0 <= i < |targets| && TargetRows((i, targets[i]), scrape) == Some(row);
      assert en[i] == (i, targets[i]);
    }
  }

  /** Every row comes from a target whose page succeeded, and it carries
      that target's names, the page's texts, `金額` 2990 and formulas on the
      target's row `i + 2`, however many targets before it were skipped. */
  lemma SheetRows(targets: seq<Target>, scrape: Scraper, row: (SheetRow, CsvRow))
    requires row in Sheet(targets, scrape)
    ensures row.0.amount == Amount && row.0.updated == row.1.updated
    ensures exists i :: (
      && 0 <= i < |targets| && ScrapePage(targets[i].0, scrape).Some?
      && ReferencedRow(row.0.visaFormula) == Some(i + 2)
      && row.0.country == Some(targets[i].1) && row.1.currency == targets[i].0
      && row.0.master == row.1.master && row.0.master == ScrapePage(targets[i].0, scrape).value.master)
  {
    SheetMembers(targets, scrape, row);
    var i :| 0 <= i < |targets| && TargetRows((i, targets[i]), scrape) == Some(row);
    var (country, chinese) := targets[i];
    var s := ScrapePage(country, scrape).value;
    assert row == (SheetRowOf(i, Some(chinese), Some(country), s), CsvRow(chinese, country, s.visa, s.master, s.jcb, s.date));
  }

  /** When every page succeeds there is one row per target, in order. */
  lemma SheetComplete(targets: seq<Target>, scrape: Scraper)
    requires forall i :: 0 <= i < |targets| ==> ScrapePage(targets[i].0, scrape).Some?
    ensures |Sheet(targets, scrape)| == |targets|
    ensures forall i :: 0 <= i < |targets| ==> Sheet(targets, scrape)[i] == TargetRows((i, targets[i]), scrape).value
  {
    var en := Enumerate(targets);
    var f := e => TargetRows(e, scrape);
    forall i | 0 <= i < |en|
      ensures f(en[i]).Some?
    {
      assert en[i] == (i, targets[i]);
    }
    CollectTotal(en, f);
  }

  /** The CSV row of the deprecated version, which also carries the
      target's English names. */
  datatype WideCsvRow = WideCsvRow(
    countryCn: Option<string>,
    country: Option<string>,
    currency: Option<string>,
    currencyCn: Option<string>,
    visa: string,
    master: string,
    jcb: string,
    updated: string)

  function DeprecatedRows(e: (nat, map<string, string>), scrape: Scraper): (r: Option<(SheetRow, WideCsvRow)>)
  {
    var (i, t) := e;
    var countryEn := Lookup(t, "Country");
    var currencyEn := Lookup(t, "Currency");
    var countryCn := Lookup(t, "Country_Chinese");
    var currencyCn := Lookup(t, "CurrencyName");
    match ScrapePage(StrOf(currencyEn), scrape)
    case None => None
    case Some(s) =>
      Some((SheetRowOf(i, countryCn, currencyCn, s),
        WideCsvRow(countryCn, countryEn, currencyEn, currencyCn, s.visa, s.master, s.jcb, s.date)))
  }

  /** The deprecated `get_default_country`, over a list of dicts. */
  function DeprecatedSheet(targets: seq<map<string, string>>, scrape: Scraper): (r: seq<(SheetRow, WideCsvRow)>)
    ensures |r| <= |targets|
  {
    Collect(Enumerate(targets), e => DeprecatedRows(e, scrape))
  }

  /** Every row of the deprecated sheet comes from one target whose page
      succeeded: its CSV row repeats that target's four names as `.get`
      reads them, and its formulas refer to row `i + 2`. */
  lemma DeprecatedSheetRows(targets: seq<map<string, string>>, scrape: Scraper, row: (SheetRow, WideCsvRow))
    requires row in DeprecatedSheet(targets, scrape)
    ensures exists i :: (
      && 0 <= i < |targets|
      && ScrapePage(StrOf(Lookup(targets[i], "Currency")), scrape).Some?
      && row.1.country == Lookup(targets[i], "Country") && row.1.currency == Lookup(targets[i], "Currency")
      && row.1.countryCn == Lookup(targets[i], "Country_Chinese") && row.1.currencyCn == Lookup(targets[i], "CurrencyName")
      && ReferencedRow(row.0.jcbFormula) == Some(i + 2) && row.0.amount == Amount)
  {
    var en := Enumerate(targets);
    var f := e => DeprecatedRows(e, scrape);
    CollectMembers(en, f, row);
    var i :| 0 <= i < |en| && f(en[i]) == Some(row);
    assert en[i] == (i, targets[i]);
  }
}
