/** exrate.py: the Selenium version of the sheet builder. The lookups sit in
    a `try` that swallows a missing element, and the row is built after it
    from whatever the four variables hold: a country whose page lacks an
    element repeats the values of the previous country, and a first country
    without them raises `UnboundLocalError`. The browser is the parameter
    `find`.
 */
module Exrate {
  import opened Wrappers
  import opened PyStr
  import opened Regex
  import opened RateSheet

  /** The four `find_element` calls, in order. */
  datatype Element = VisaText | VisaDateText | MasterText | JcbText

  /** The text of an element on the page of a code; `None` raises
      `NoSuchElementException`. */
  type Finder = (string, Element) -> Option<string>

  /** The loop variables that reach the row; `None` while never assigned. */
  datatype Carried = Carried(visa: Option<string>, visaDate: Option<string>, master: Option<string>, jcb: Option<string>)

  const Unassigned := Carried(None, None, None, None)

  predicate Complete(c: Carried) {
    c.visa.Some? && c.visaDate.Some? && c.master.Some? && c.jcb.Some?
  }

  /** `s.split(" ")[0]`. */
  function FirstToken(s: string): string {
    Before(s, " ")
  }

  /** The `try` block: each lookup assigns its variable, and the first
      missing element leaves the later ones as they were. The master and JCB
      dates are computed and never used, so they are not kept. */
  function Visit(code: string, find: Finder, c: Carried): (r: Carried)
    ensures find(code, VisaText).None? ==> r == c
    ensures Complete(c) ==> Complete(r)
  {
    var visa := find(code, VisaText);
    var date := if visa.None? then None else find(code, VisaDateText);
    var master := if date.None? then None else find(code, MasterText);
    var jcb := if master.None? then None else find(code, JcbText);
    Carried(
      if visa.Some? then visa else c.visa,
      if date.Some? then Some(GetDate(date.value)) else c.visaDate,
      if master.Some? then Some(FirstToken(master.value)) else c.master,
      if jcb.Some? then Some(FirstToken(jcb.value)) else c.jcb)
  }

  /** A page with all four elements sets all four variables, whatever they
      held before: the date without parentheses, the rates as first
      tokens. */
  lemma VisitFound(code: string, find: Finder, c: Carried)
    requires find(code, VisaText).Some? && find(code, VisaDateText).Some?
    requires find(code, MasterText).Some? && find(code, JcbText).Some?
    ensures Visit(code, find, c) == Carried(find(code, VisaText), Some(GetDate(find(code, VisaDateText).value)),
      Some(FirstToken(find(code, MasterText).value)), Some(FirstToken(find(code, JcbText).value)))
  {
  }

  /** A cell `"rate (date)"` with a space-free rate gives the rate as its
      first token. */
  lemma FirstTokenOf(rate: string, rest: string)
    requires ' ' !in rate
    ensures FirstToken(rate + " " + rest) == rate
  {
    assert rate + " " + rest == rate + (" " + rest);
    assert IsAt(" " + rest, " ", 0);
    BeforeFirst(rate, " ", " " + rest);
  }

  /** The row after the `try`: reading an unassigned variable raises
      `UnboundLocalError`. */
  function RowOf(i: nat, code: string, chinese: string, c: Carried): (r: Result<SheetRow>)
    ensures r.Ok? <==> Complete(c)
    ensures r.Err? ==> r.error == UnboundLocalError
    ensures r.Ok? ==> r.value.amount == Amount && r.value.country == Some(chinese) && r.value.currency == Some(code)
    ensures r.Ok? ==> r.value.visaFormula == Formula('E', i + 2)
    ensures r.Ok? ==> r.value.visa == c.visa.value && r.value.updated == c.visaDate.value
    ensures r.Ok? ==> r.value.master == c.master.value && r.value.jcb == c.jcb.value
  {
    if !Complete(c) then Err(UnboundLocalError)
    else Ok(SheetRowOf(i, Some(chinese), Some(code), Scraped(c.visa.value, c.master.value, c.visaDate.value, c.jcb.value)))
  }

  /** The variables as the row of each country reads them: each page is
      visited with what the previous one left. */
  function States(ts: seq<Target>, find: Finder, c: Carried): (r: seq<Carried>)
    ensures |r| == |ts|
    decreases |ts|
  {
    if ts == [] then [] else
      var c' := Visit(ts[0].0, find, c);
      [c'] + States(ts[1..], find, c')
  }

  /** Each country is visited with the variables of the one before. */
  lemma {:induction false} StatesStep(ts: seq<Target>, find: Finder, c: Carried, i: nat)
    requires 0 < i < |ts|
    ensures States(ts, find, c)[i] == Visit(ts[i].0, find, States(ts, find, c)[i - 1])
    decreases |ts|
  {
    var c' := Visit(ts[0].0, find, c);
    assert States(ts, find, c) == [c'] + States(ts[1..], find, c');
    if i > 1 {
      StatesStep(ts[1..], find, c', i - 1);
    }
  }

  /** Once all four variables are assigned they stay assigned. */
  lemma {:induction false} StatesComplete(ts: seq<Target>, find: Finder, c: Carried, i: nat)
    requires ts != [] && Complete(States(ts, find, c)[0]) && i < |ts|
    ensures Complete(States(ts, find, c)[i])
  {
    if i > 0 {
      StatesComplete(ts, find, c, i - 1);
      StatesStep(ts, find, c, i);
    }
  }

  /** `get_default_country`: a row per country, numbered by its position;
      the first row that reads an unassigned variable raises, and the frame
      is lost. */
  function GetDefaultCountry(targets: seq<Target>, find: Finder): (r: Result<seq<SheetRow>>)
    ensures r.Err? ==> r.error == UnboundLocalError
    ensures r.Ok? ==> |r.value| == |targets|
  {
    var cs := States(targets, find, Unassigned);
    if forall i :: 0 <= i < |cs| ==> Complete(cs[i]) then
      Ok(seq(|targets|, i requires 0 <= i < |targets| => RowOf(i, targets[i].0, targets[i].1, cs[i]).value))
    else Err(UnboundLocalError)
  }

  /** The loop fails exactly when the first country leaves a variable
      unassigned. */
  lemma GetDefaultCountryFails(targets: seq<Target>, find: Finder)
    ensures GetDefaultCountry(targets, find).Ok? <==> targets == [] || Complete(Visit(targets[0].0, find, Unassigned))
  {
    var cs := States(targets, find, Unassigned);
    if targets != [] && Complete(Visit(targets[0].0, find, Unassigned)) {
      forall i | 0 <= i < |cs|
        ensures Complete(cs[i])
      {
        StatesComplete(targets, find, Unassigned, i);
      }
    }
  }

  /** A country whose page has no Visa element repeats the previous
      country's rates and date. */
  lemma GetDefaultCountryCarry(targets: seq<Target>, find: Finder, i: nat)
    requires GetDefaultCountry(targets, find).Ok? && 0 < i < |targets|
    requires find(targets[i].0, VisaText).None?
    ensures var rows := GetDefaultCountry(targets, find).value;
      && rows[i].visa == rows[i - 1].visa && rows[i].updated == rows[i - 1].updated
      && rows[i].master == rows[i - 1].master && rows[i].jcb == rows[i - 1].jcb
  {
    StatesStep(targets, find, Unassigned, i);
  }

  /** The `i`-th row belongs to the `i`-th country, and its formulas refer
      to spreadsheet row `i + 2`. */
  lemma GetDefaultCountryRows(targets: seq<Target>, find: Finder, i: nat)
    requires GetDefaultCountry(targets, find).Ok? && i < |targets|
    ensures var row := GetDefaultCountry(targets, find).value[i];
      && row.country == Some(targets[i].1) && row.currency == Some(targets[i].0) && row.amount == Amount
      && ReferencedRow(row.visaFormula) == Some(i + 2)
  {
    FormulaRow('E', i + 2);
  }
}
