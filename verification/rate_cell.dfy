/** The text pieces of a twrates.com card-rate page: the rate cell
    `"<rate> (<date>)"` of each table row, and the currency display name in
    the `change_ccy()` anchor. Two variants of the cell parser exist in the
    code base: a strict one (src/igpf/currency_core.py, src/currency_core.py)
    that cleans the rate inside the parser and only trims trailing `")"` from
    the date, and a loose one (src/currency.py, src/utils/currency_core.py,
    currency.py) that removes every `")"` and leaves the rate to the caller.
 */
module RateCell {
  import opened Wrappers
  import opened PyStr

  /** `CurrencyInfo`: the two halves of a rate cell. */
  datatype CurrencyInfo = CurrencyInfo(rate: string, date: string)

  /** `rate.replace("\xa0", "").strip()`. */
  function CleanRate(s: string): (r: string)
    ensures Nbsp !in r && Trimmed(r)
  {
    var t := RemoveChar(s, Nbsp);
    var r := Strip(t);
    assert Nbsp !in r by {
      StripKeeps(t, Nbsp);
    }
    r
  }

  /** Whatever `strip()` keeps was already there. */
  lemma StripKeeps(s: string, c: char)
    requires c !in s
    ensures c !in Strip(s)
  {
    assert !IsSpace('(') && !IsSpace(')');
    if !IsSpace(c) {
      StripCounts(s, c);
      assert multiset(s)[c] == 0;
    } else {
      var l := LStrip(s);
      assert Strip(s) == RStrip(l);
      assert RStrip(l) == l[..|RStrip(l)|];
    }
  }

  lemma CleanRateIdempotent(s: string)
    ensures CleanRate(CleanRate(s)) == CleanRate(s)
  {
    var r := CleanRate(s);
    WithoutNoop(r, {Nbsp});
    StripIdempotent(r);
  }

  /** `__parse_exchange_rate_info` of src/igpf/currency_core.py and
      src/currency_core.py. A cell with one `"("` splits there: the rate is
      the part before it, cleaned; the date the part after it with trailing
      `")"` trimmed and then stripped. A cell with no `"("` is all rate and
      has an empty date. Two or more `"("` make the two-way unpack raise
      `ValueError`. */
  function ParseStrict(cell: string): (r: Result<CurrencyInfo>)
    ensures r.Err? ==> r.error == ValueError
    ensures r.Ok? ==> Nbsp !in r.value.rate && Trimmed(r.value.rate) && Trimmed(r.value.date)
  {
    if '(' in cell then
      var parts := Split(cell, "(");
      if |parts| != 2 then Err(ValueError)
      else Ok(CurrencyInfo(CleanRate(parts[0]), Strip(RStripChar(parts[1], ')'))))
    else
      Ok(CurrencyInfo(CleanRate(cell), ""))
  }

  /** The strict parse fails exactly when the cell holds more than one
      `"("`. */
  lemma ParseStrictFails(cell: string)
    ensures ParseStrict(cell).Err? <==> multiset(cell)['('] >= 2
  {
    SplitCharCount(cell, '(');
  }

  /** A cell `a + "(" + b` with no other `"("` parses into its two halves. */
  lemma ParseStrictSplits(a: string, b: string)
    requires '(' !in a && '(' !in b
    ensures ParseStrict(a + "(" + b) == Ok(CurrencyInfo(CleanRate(a), Strip(RStripChar(b, ')'))))
  {
    var cell := a + "(" + b;
    SplitCharOnce(a, '(', b);
    assert cell[|a|] == '(';
    ParseStrictTwo(cell, a, b);
  }

  lemma ParseStrictTwo(cell: string, a: string, b: string)
    requires '(' in cell && Split(cell, "(") == [a, b]
    ensures ParseStrict(cell) == Ok(CurrencyInfo(CleanRate(a), Strip(RStripChar(b, ')'))))
  {
  }

  /** A cell without `"("` is all rate. */
  lemma ParseStrictNoDate(cell: string)
    requires '(' !in cell
    ensures ParseStrict(cell) == Ok(CurrencyInfo(CleanRate(cell), ""))
  {
  }

  /** `parse_exchange_rate_info` of src/currency.py, src/utils/currency_core.py
      and currency.py: the same split, but every `")"` is removed from the
      date and the rate is returned as it was. */
  function ParseLoose(cell: string): (r: Result<(string, string)>)
    ensures r.Err? ==> r.error == ValueError
    ensures r.Ok? ==> ')' !in r.value.1 && Trimmed(r.value.1)
  {
    if '(' in cell then
      var parts := Split(cell, "(");
      if |parts| != 2 then Err(ValueError)
      else
        var d := RemoveChar(parts[1], ')');
        StripKeeps(d, ')');
        Ok((parts[0], Strip(d)))
    else
      Ok((cell, ""))
  }

  lemma ParseLooseFails(cell: string)
    ensures ParseLoose(cell).Err? <==> multiset(cell)['('] >= 2
  {
    SplitCharCount(cell, '(');
  }

  /** A cell `a + "(" + b` with no other `"("` parses into `a`, unchanged,
      and `b` without its `")"`s. */
  lemma ParseLooseSplits(a: string, b: string)
    requires '(' !in a && '(' !in b
    ensures ParseLoose(a + "(" + b) == Ok((a, Strip(RemoveChar(b, ')'))))
  {
    var cell := a + "(" + b;
    assert Split(cell, "(") == [a, b] by {
      SplitCharOnce(a, '(', b);
    }
    assert '(' in cell by {
      assert cell[|a|] == '(';
    }
  }

  /** `RStripChar` of text ending in one `c` takes that `c` off. */
  lemma RStripCharOne(b: string, c: char)
    requires c !in b
    ensures RStripChar(b + [c], c) == b
  {
    var r := RStripChar(b + [c], c);
    assert r == b + [c] || r == b || |r| < |b|;
  }

  /** The two parsers read the same date from a cell whose date part ends in
      its only `")"`; the loose rate still needs cleaning. */
  lemma ParsersAgree(a: string, b: string)
    requires '(' !in a && '(' !in b && ')' !in b
    ensures var cell := a + "(" + (b + ")");
      && ParseStrict(cell) == Ok(CurrencyInfo(CleanRate(a), Strip(b)))
      && ParseLoose(cell) == Ok((a, Strip(b)))
  {
    StrictClosed(a, b);
    LooseClosed(a, b);
  }

  lemma StrictClosed(a: string, b: string)
    requires '(' !in a && '(' !in b && ')' !in b
    ensures ParseStrict(a + "(" + (b + ")")) == Ok(CurrencyInfo(CleanRate(a), Strip(b)))
  {
    assert '(' !in b + ")";
    ParseStrictSplits(a, b + ")");
    RStripCharOne(b, ')');
  }

  lemma LooseClosed(a: string, b: string)
    requires '(' !in a && '(' !in b && ')' !in b
    ensures ParseLoose(a + "(" + (b + ")")) == Ok((a, Strip(b)))
  {
    assert '(' !in b + ")";
    ParseLooseSplits(a, b + ")");
    RemoveLastChar(b, ')');
  }

  /** The currency display name in the `change_ccy()` anchor:
      `text.split(" - ")[1].split("&nbsp;&nbsp;")[0]`, without U+00A0 and
      stripped. The `[1]` raises `IndexError` when `" - "` is absent. */
  function DisplayName(text: string): (r: Result<string>)
    ensures r.Ok? ==> Nbsp !in r.value && Trimmed(r.value)
  {
    var parts := Split(text, " - ");
    if |parts| < 2 then Err(IndexError)
    else Ok(CleanRate(Before(parts[1], "&nbsp;&nbsp;")))
  }

  lemma DisplayNameFails(text: string)
    ensures DisplayName(text).Err? <==> !Contains(text, " - ")
  {
  }

  /** An anchor text `code + " - " + name + rest`, where the code has no
      blank, the name no `"&"`, and the rest starts with `"&nbsp;&nbsp;"`,
      displays the cleaned name when no further `" - "` follows. */
  lemma DisplayNameOf(code: string, name: string, rest: string)
    requires ' ' !in code
    requires !Contains(name + rest, " - ")
    requires '&' !in name && IsAt(rest, "&nbsp;&nbsp;", 0)
    ensures DisplayName(code + " - " + (name + rest)) == Ok(CleanRate(name))
  {
    SplitOnce(code, " - ", name + rest);
    BeforeFirst(name, "&nbsp;&nbsp;", rest);
  }
}
