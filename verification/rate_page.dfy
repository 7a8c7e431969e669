/** A twrates.com card-rate page as the scrapers see it after HTML parsing,
    and the row fold every rate scraper performs on it: each `<tr>` with at
    least two `<td>` cells contributes its stripped first cell as a card
    label and its stripped second cell as a rate cell; the label is set to
    the parsed rate, so a later row with the same label overwrites an
    earlier one, and the dates of the first and last such rows are kept.
 */
module RatePage {
  import opened Wrappers
  import opened PyStr
  import RateCell

  /** `<li class="itm">` of the currency menu: its text and its `<a>`, whose
      `href` attribute may be missing. */
  datatype Anchor = Anchor(href: Option<string>)
  datatype ListItem = ListItem(text: string, anchor: Option<Anchor>)

  /** The parts of a page the scrapers read: the text of the
      `<a onclick="change_ccy()">` anchor, the `<td>` texts of every `<tr>`,
      and the currency menu. */
  datatype Page = Page(ccyAnchor: Option<string>, rows: seq<seq<string>>, items: seq<ListItem>)

  /** What `requests.get` gives back: a response with its status code, or a
      `RequestException` (no connection, timeout, ...). */
  datatype Response = Response(status: int, page: Page) | NoResponse

  /** The site and the per-currency page address. */
  const Site: string := "https://www.twrates.com"
  const RatePath: string := "/card/mastercard/"
  const Suffix: string := ".html"

  /** `f"https://www.twrates.com/card/mastercard/{code}.html"`. */
  function RateUrl(code: string): (url: string)
    ensures |url| == |Site| + |RatePath| + |code| + |Suffix|
    ensures url[..|Site| + |RatePath|] == Site + RatePath
    ensures url[|Site| + |RatePath|..|url| - |Suffix|] == code
  {
    Site + RatePath + code + Suffix
  }

  /** Different codes give different addresses. */
  lemma RateUrlInjective(a: string, b: string)
    ensures RateUrl(a) == RateUrl(b) ==> a == b
  {
    if RateUrl(a) == RateUrl(b) {
      var n := |Site| + |RatePath|;
      assert a == RateUrl(a)[n..|RateUrl(a)| - |Suffix|];
    }
  }

  /** `item.find("a")["href"]`: subscripting the missing anchor (`None`)
      raises `TypeError`, a missing attribute `KeyError`. */
  function Href(item: ListItem): (r: Result<string>)
    ensures r.Ok? <==> item.anchor.Some? && item.anchor.value.href.Some?
    ensures r.Ok? ==> r.value == item.anchor.value.href.value
    ensures item.anchor.None? ==> r == Err(TypeError)
    ensures item.anchor.Some? && item.anchor.value.href.None? ==> r == Err(KeyError)
  {
    match item.anchor
    case None => Err(TypeError)
    case Some(a) =>
      match a.href
      case None => Err(KeyError)
      case Some(h) => Ok(h)
  }

  /** A menu entry reads `"<code> - <name>"`: the text before the first
      `" - "` is the code and the text after the last one is the name. */
  lemma MenuText(code: string, name: string)
    requires ' ' !in code && !Contains(name, " - ")
    requires Trimmed(code + " - " + name)
    ensures Strip(code + " - " + name) == code + " - " + name
    ensures Before(code + " - " + name, " - ") == code
    ensures AfterLast(code + " - " + name, " - ") == name
  {
    var t := code + " - " + name;
    SplitOnce(code, " - ", name);
    assert t == code + (" - " + name);
    assert IsAt(" - " + name, " - ", 0) by {
      assert (" - " + name)[..3] == " - ";
    }
    BeforeFirst(code, " - ", " - " + name);
  }

  /** The name a well-formed menu item shows after its last `" - "`. */
  lemma MenuName(code: string, name: string)
    requires ' ' !in code && !Contains(name, " - ")
    requires Trimmed(code + " - " + name)
    ensures AfterLast(Strip(code + " - " + name), " - ") == name
  {
    MenuText(code, name);
  }

  /** The name shown when the `change_ccy()` anchor is missing. */
  const NoName: string := "未找到幣值名稱"

  /** `if currency_content: currency_name = ...`: the display name, or the
      placeholder when the anchor is missing. */
  function NameOrPlaceholder(anchor: Option<string>): (r: Result<string>)
    ensures anchor.None? ==> r == Ok(NoName)
    ensures anchor.Some? ==> r == RateCell.DisplayName(anchor.value)
  {
    match anchor
    case None => Ok(NoName)
    case Some(t) => RateCell.DisplayName(t)
  }

  /** `response.raise_for_status()` raises for client and server errors. */
  predicate RaisesForStatus(status: int) {
    400 <= status < 600
  }

  /** `len(cols) > 1`. */
  predicate Qualifies(row: seq<string>) {
    |row| > 1
  }

  /** `cols[0].text.strip()`. */
  function Label(row: seq<string>): string
    requires Qualifies(row)
  {
    Strip(row[0])
  }

  /** `cols[1].text.strip()`. */
  function Cell(row: seq<string>): string
    requires Qualifies(row)
  {
    Strip(row[1])
  }

  /** A cell parser giving (rate, date), with the rate as stored. */
  type CellParser = string -> Result<(string, string)>

  /** What the loop has gathered so far: the label map, and the dates of the
      first and the last qualifying rows. */
  datatype Folded = Folded(rates: map<string, string>, first: Option<string>, last: Option<string>)

  /** The effect of one qualifying row whose cell parsed to `(rate, date)`. */
  function Step(acc: Folded, card: string, rate: string, date: string): (r: Folded)
    ensures r.rates.Keys == acc.rates.Keys + {card} && r.rates[card] == rate
    ensures forall k :: k in acc.rates && k != card ==> r.rates[k] == acc.rates[k]
    ensures r.first == (if acc.first.None? then Some(date) else acc.first) && r.last == Some(date)
  {
    Folded(acc.rates[card := rate], if acc.first.None? then Some(date) else acc.first, Some(date))
  }

  /** `for row in rows: ...`: the first cell that fails to parse ends the
      loop with its exception. */
  function FoldRows(rows: seq<seq<string>>, parse: CellParser, acc: Folded): (r: Result<Folded>)
    ensures r.Ok? ==> acc.rates.Keys <= r.value.rates.Keys
    ensures r.Ok? && acc.first.Some? ==> r.value.first == acc.first
    ensures r.Ok? && acc.last.Some? ==> r.value.last.Some?
    decreases |rows|
  {
    if rows == [] then Ok(acc)
    else if Qualifies(rows[0]) then
      var p := parse(Cell(rows[0]));
      if p.Err? then Err(p.error)
      else FoldRows(rows[1..], parse, Step(acc, Label(rows[0]), p.value.0, p.value.1))
    else FoldRows(rows[1..], parse, acc)
  }

  /** Row `i` takes part and its cell fails to parse. */
  predicate BadRow(rows: seq<seq<string>>, parse: CellParser, i: int) {
    0 <= i < |rows| && Qualifies(rows[i]) && parse(Cell(rows[i])).Err?
  }

  /** Row `i` takes part and carries label `k`. */
  predicate Labelled(rows: seq<seq<string>>, i: int, k: string) {
    0 <= i < |rows| && Qualifies(rows[i]) && Label(rows[i]) == k
  }

  /** A failed fold failed at the first qualifying row whose cell fails. */
  lemma {:induction false} FoldErrFirst(rows: seq<seq<string>>, parse: CellParser, acc: Folded)
    ensures FoldRows(rows, parse, acc).Err? ==>
      exists i :: BadRow(rows, parse, i) && FoldRows(rows, parse, acc).error == parse(Cell(rows[i])).error
        && forall j :: 0 <= j < i ==> !BadRow(rows, parse, j)
    decreases |rows|
  {
    if rows != [] && !BadRow(rows, parse, 0) && FoldRows(rows, parse, acc).Err? {
      var acc' := Next(rows, parse, acc);
      FoldPast(rows, parse, acc);
      FoldErrFirst(rows[1..], parse, acc');
      var i :| BadRow(rows[1..], parse, i) && FoldRows(rows[1..], parse, acc').error == parse(Cell(rows[1..][i])).error
        && forall j :: 0 <= j < i ==> !BadRow(rows[1..], parse, j);
      assert rows[1..][i] == rows[i + 1];
      forall j | 0 <= j < i + 1
        ensures !BadRow(rows, parse, j)
      {
        if j > 0 {
          assert !BadRow(rows[1..], parse, j - 1);
          assert rows[1..][j - 1] == rows[j];
        }
      }
      assert BadRow(rows, parse, i + 1);
    }
  }

  /** Past a first row that does not fail, the fold goes on with the rest. */
  lemma FoldPast(rows: seq<seq<string>>, parse: CellParser, acc: Folded)
    requires rows != [] && !BadRow(rows, parse, 0)
    ensures FoldRows(rows, parse, acc) == FoldRows(rows[1..], parse, Next(rows, parse, acc))
  {
  }

  /** A qualifying row whose cell fails makes the fold fail. */
  lemma {:induction false} FoldBadErr(rows: seq<seq<string>>, parse: CellParser, acc: Folded, i: int)
    requires BadRow(rows, parse, i)
    ensures FoldRows(rows, parse, acc).Err?
    decreases |rows|
  {
    if i > 0 && !BadRow(rows, parse, 0) {
      FoldPast(rows, parse, acc);
      assert rows[1..][i - 1] == rows[i];
      FoldBadErr(rows[1..], parse, Next(rows, parse, acc), i - 1);
    }
  }

  /** The fold fails exactly when some qualifying row's cell fails, and
      then with the error of the first such row. */
  lemma FoldFails(rows: seq<seq<string>>, parse: CellParser, acc: Folded)
    ensures FoldRows(rows, parse, acc).Err? <==> exists i :: BadRow(rows, parse, i)
    ensures FoldRows(rows, parse, acc).Err? ==>
      exists i :: BadRow(rows, parse, i) && FoldRows(rows, parse, acc).error == parse(Cell(rows[i])).error
        && forall j :: 0 <= j < i ==> !BadRow(rows, parse, j)
  {
    FoldErrFirst(rows, parse, acc);
    if exists i :: BadRow(rows, parse, i) {
      var i :| BadRow(rows, parse, i);
      FoldBadErr(rows, parse, acc, i);
    }
  }

  /** A parser that only ever fails one way makes the fold fail that way. */
  lemma {:induction false} FoldErrorFrom(rows: seq<seq<string>>, parse: CellParser, acc: Folded, e: PyError)
    requires forall cell :: parse(cell).Err? ==> parse(cell).error == e
    ensures FoldRows(rows, parse, acc).Err? ==> FoldRows(rows, parse, acc).error == e
    decreases |rows|
  {
    if rows != [] && !BadRow(rows, parse, 0) {
      var acc' := if Qualifies(rows[0])
        then Step(acc, Label(rows[0]), parse(Cell(rows[0])).value.0, parse(Cell(rows[0])).value.1)
        else acc;
      FoldErrorFrom(rows[1..], parse, acc', e);
    }
  }

  /** A label that no qualifying row carries keeps what it had before the
      loop. */
  lemma {:induction false} FoldUntouched(rows: seq<seq<string>>, parse: CellParser, acc: Folded, k: string)
    requires FoldRows(rows, parse, acc).Ok?
    requires forall i :: !Labelled(rows, i, k)
    ensures k in FoldRows(rows, parse, acc).value.rates <==> k in acc.rates
    ensures k in acc.rates ==> FoldRows(rows, parse, acc).value.rates[k] == acc.rates[k]
    decreases |rows|
  {
    if rows != [] {
      forall i
        ensures !Labelled(rows[1..], i, k)
      {
        assert !Labelled(rows, i + 1, k);
        if 0 <= i < |rows[1..]| {
          assert rows[1..][i] == rows[i + 1];
        }
      }
      assert !Labelled(rows, 0, k);
      if Qualifies(rows[0]) {
        var p := parse(Cell(rows[0]));
        FoldUntouched(rows[1..], parse, Step(acc, Label(rows[0]), p.value.0, p.value.1), k);
      } else {
        FoldUntouched(rows[1..], parse, acc, k);
      }
    }
  }

  /** The fold state after the first row. */
  function Next(rows: seq<seq<string>>, parse: CellParser, acc: Folded): Folded
    requires rows != [] && !BadRow(rows, parse, 0)
  {
    if Qualifies(rows[0])
    then Step(acc, Label(rows[0]), parse(Cell(rows[0])).value.0, parse(Cell(rows[0])).value.1)
    else acc
  }

  /** A successful fold passes its first row and goes on with the rest. */
  lemma FoldHead(rows: seq<seq<string>>, parse: CellParser, acc: Folded)
    requires rows != [] && FoldRows(rows, parse, acc).Ok?
    ensures !BadRow(rows, parse, 0)
    ensures FoldRows(rows, parse, acc) == FoldRows(rows[1..], parse, Next(rows, parse, acc))
  {
  }

  /** In a successful fold every qualifying cell parses. */
  lemma {:induction false} FoldParses(rows: seq<seq<string>>, parse: CellParser, acc: Folded, i: nat)
    requires FoldRows(rows, parse, acc).Ok? && i < |rows| && Qualifies(rows[i])
    ensures parse(Cell(rows[i])).Ok?
    decreases |rows|
  {
    FoldHead(rows, parse, acc);
    if i > 0 {
      assert rows[1..][i - 1] == rows[i];
      FoldParses(rows[1..], parse, Next(rows, parse, acc), i - 1);
    }
  }

  lemma LabelledTail(rows: seq<seq<string>>, i: int, k: string)
    requires rows != []
    ensures Labelled(rows[1..], i, k) ==> Labelled(rows, i + 1, k)
    ensures 0 <= i ==> (Labelled(rows, i + 1, k) ==> Labelled(rows[1..], i, k))
  {
    if 0 <= i < |rows[1..]| {
      assert rows[1..][i] == rows[i + 1];
    }
  }

  /** The last row carrying a label decides that label's rate. */
  lemma {:induction false} FoldLastWins(rows: seq<seq<string>>, parse: CellParser, acc: Folded, i: nat, k: string)
    requires FoldRows(rows, parse, acc).Ok?
    requires Labelled(rows, i, k)
    requires forall j :: i < j ==> !Labelled(rows, j, k)
    ensures parse(Cell(rows[i])).Ok?
    ensures k in FoldRows(rows, parse, acc).value.rates
    ensures FoldRows(rows, parse, acc).value.rates[k] == parse(Cell(rows[i])).value.0
    decreases |rows|
  {
    FoldParses(rows, parse, acc, i);
    FoldHead(rows, parse, acc);
    var acc' := Next(rows, parse, acc);
    if i == 0 {
      forall j
        ensures !Labelled(rows[1..], j, k)
      {
        LabelledTail(rows, j, k);
      }
      FoldUntouched(rows[1..], parse, acc', k);
    } else {
      LabelledTail(rows, i - 1, k);
      forall j | i - 1 < j
        ensures !Labelled(rows[1..], j, k)
      {
        LabelledTail(rows, j, k);
      }
      FoldLastWins(rows[1..], parse, acc', i - 1, k);
    }
  }

  /** No later row takes part. */
  predicate LastQualifying(rows: seq<seq<string>>, i: int) {
    0 <= i < |rows| && Qualifies(rows[i]) && forall j :: i < j < |rows| ==> !Qualifies(rows[j])
  }

  /** No earlier row takes part. */
  predicate FirstQualifying(rows: seq<seq<string>>, i: int) {
    0 <= i < |rows| && Qualifies(rows[i]) && forall j :: 0 <= j < i ==> !Qualifies(rows[j])
  }

  /** Rows that take no part leave the fold where it was. */
  lemma {:induction false} FoldNoRows(rows: seq<seq<string>>, parse: CellParser, acc: Folded)
    requires forall j :: 0 <= j < |rows| ==> !Qualifies(rows[j])
    ensures FoldRows(rows, parse, acc) == Ok(acc)
    decreases |rows|
  {
    if rows != [] {
      assert !Qualifies(rows[0]);
      FoldNoRows(rows[1..], parse, acc);
    }
  }

  /** The last date is that of the last qualifying row. */
  lemma {:induction false} FoldLastDate(rows: seq<seq<string>>, parse: CellParser, acc: Folded, i: nat)
    requires FoldRows(rows, parse, acc).Ok?
    requires LastQualifying(rows, i)
    ensures parse(Cell(rows[i])).Ok?
    ensures FoldRows(rows, parse, acc).value.last == Some(parse(Cell(rows[i])).value.1)
    decreases |rows|
  {
    FoldParses(rows, parse, acc, i);
    FoldHead(rows, parse, acc);
    var acc' := Next(rows, parse, acc);
    if i == 0 {
      forall j | 0 <= j < |rows[1..]|
        ensures !Qualifies(rows[1..][j])
      {
        assert rows[1..][j] == rows[j + 1];
      }
      FoldNoRows(rows[1..], parse, acc');
    } else {
      assert rows[1..][i - 1] == rows[i];
      forall j | i - 1 < j < |rows[1..]|
        ensures !Qualifies(rows[1..][j])
      {
        assert rows[1..][j] == rows[j + 1];
      }
      FoldLastDate(rows[1..], parse, acc', i - 1);
    }
  }

  /** Starting with no date, the first date is that of the first qualifying
      row. */
  lemma {:induction false} FoldFirstDate(rows: seq<seq<string>>, parse: CellParser, acc: Folded, i: nat)
    requires FoldRows(rows, parse, acc).Ok? && acc.first.None?
    requires FirstQualifying(rows, i)
    ensures parse(Cell(rows[i])).Ok?
    ensures FoldRows(rows, parse, acc).value.first == Some(parse(Cell(rows[i])).value.1)
    decreases |rows|
  {
    FoldParses(rows, parse, acc, i);
    FoldHead(rows, parse, acc);
    if i == 0 {
      var p := parse(Cell(rows[0]));
      assert FoldRows(rows, parse, acc) == FoldRows(rows[1..], parse, Step(acc, Label(rows[0]), p.value.0, p.value.1));
    } else {
      assert !Qualifies(rows[0]);
      assert rows[1..][i - 1] == rows[i];
      forall j | 0 <= j < i - 1
        ensures !Qualifies(rows[1..][j])
      {
        assert rows[1..][j] == rows[j + 1];
      }
      FoldFirstDate(rows[1..], parse, acc, i - 1);
    }
  }

  /** Starting with no date, a date is found exactly when some row takes
      part. */
  lemma {:induction false} FoldFindsDate(rows: seq<seq<string>>, parse: CellParser, acc: Folded)
    requires FoldRows(rows, parse, acc).Ok? && acc.first.None? && acc.last.None?
    ensures FoldRows(rows, parse, acc).value.first.Some? <==> exists i :: 0 <= i < |rows| && Qualifies(rows[i])
    ensures FoldRows(rows, parse, acc).value.last.Some? <==> exists i :: 0 <= i < |rows| && Qualifies(rows[i])
    decreases |rows|
  {
    if rows != [] {
      if Qualifies(rows[0]) {
        assert 0 < |rows| && Qualifies(rows[0]);
      } else {
        FoldFindsDate(rows[1..], parse, acc);
        if exists i :: 0 <= i < |rows| && Qualifies(rows[i]) {
          var i :| 0 <= i < |rows| && Qualifies(rows[i]);
          assert rows[1..][i - 1] == rows[i];
        }
        if exists i :: 0 <= i < |rows[1..]| && Qualifies(rows[1..][i]) {
          var i :| 0 <= i < |rows[1..]| && Qualifies(rows[1..][i]);
          assert rows[1..][i] == rows[i + 1];
        }
      }
    }
  }
}
