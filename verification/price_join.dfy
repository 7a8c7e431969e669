/** The price join of `get_price_details` (src/ingame_price.py and
    src/utils/datamodule.py): a left merge of the currency table with the
    game-price table on `CountryCode` = `country`, six derived price
    columns, the raw card columns and `country` dropped, exact duplicates
    dropped, then every row with a missing name or a missing derived price
    dropped. src/price_details.py keeps the card columns instead and
    overwrites each with rate × lowest × highest. Missing values (NaN) are
    `None`; NaN keys match each other in a pandas merge, as `None` does here.
 */
module PriceJoin {
  import opened Wrappers
  import opened Seqs
  import opened Tables

  /** A row of the currency table, with the card rates as numbers. */
  datatype CurrencyRow = CurrencyRow(
    countryCode: Option<string>,
    currency: Option<string>,
    currencyCn: Option<string>,
    updated: Option<string>,
    jcb: Option<real>,
    master: Option<real>,
    visa: Option<real>)

  /** A row of the game-price table: `Name`, `country`, `lowest`,
      `highest`. */
  datatype GameRecord = GameRecord(name: Option<string>, country: Option<string>, lowest: Option<real>, highest: Option<real>)

  /** The game columns of a merged row that found no partner: all NaN. */
  const NoGame := GameRecord(None, None, None, None)

  function Side(g: Option<GameRecord>): GameRecord {
    match g
    case None => NoGame
    case Some(r) => r
  }

  /** Column multiplication: NaN in, NaN out. */
  function Times(a: Option<real>, b: Option<real>): (r: Option<real>)
    ensures r.Some? <==> a.Some? && b.Some?
    ensures r.Some? ==> r.value == a.value * b.value
  {
    if a.Some? && b.Some? then Some(a.value * b.value) else None
  }

  /** The merge keys: `CountryCode` on the left, `country` on the right. */
  predicate SameCountry(c: CurrencyRow, g: GameRecord) {
    c.countryCode == g.country
  }

  /** A row of the output: the kept metadata columns and the six derived
      prices. */
  datatype PriceDetail = PriceDetail(
    name: Option<string>,
    countryCode: Option<string>,
    currency: Option<string>,
    currencyCn: Option<string>,
    updated: Option<string>,
    lowest: Option<real>,
    highest: Option<real>,
    jcbHigh: Option<real>,
    masterHigh: Option<real>,
    visaHigh: Option<real>,
    jcbLow: Option<real>,
    masterLow: Option<real>,
    visaLow: Option<real>)

  /** The projection, the six products, and the drop of `JCB`, `萬事達`,
      `VISA` and `country`, on one merged row. */
  function Derive(p: (CurrencyRow, Option<GameRecord>)): PriceDetail {
    var (c, g) := (p.0, Side(p.1));
    PriceDetail(g.name, c.countryCode, c.currency, c.currencyCn, c.updated, g.lowest, g.highest,
      Times(c.jcb, g.highest), Times(c.master, g.highest), Times(c.visa, g.highest),
      Times(c.jcb, g.lowest), Times(c.master, g.lowest), Times(c.visa, g.lowest))
  }

  /** What `dropna(subset=[...], how="any")` keeps. */
  predicate Priced(d: PriceDetail) {
    && d.name.Some?
    && d.jcbHigh.Some? && d.masterHigh.Some? && d.visaHigh.Some?
    && d.jcbLow.Some? && d.masterLow.Some? && d.visaLow.Some?
  }

  function Identity(d: PriceDetail): PriceDetail {
    d
  }

  /** `get_price_details`. */
  function PriceDetails(currency: seq<CurrencyRow>, games: seq<GameRecord>): (r: seq<PriceDetail>)
    ensures |r| <= |OuterJoin(currency, games, SameCountry)|
  {
    Filter(DedupBy(Map(OuterJoin(currency, games, SameCountry), Derive), Identity), Priced)
  }

  /** The derived row of a currency row and a game row that share a
      country: its code from the currency table, its name and bounds from
      the game row, each derived price the card rate times a bound. */
  predicate DerivedFrom(d: PriceDetail, c: CurrencyRow, g: GameRecord) {
    && c.countryCode == g.country
    && d.countryCode == c.countryCode && d.currency == c.currency && d.currencyCn == c.currencyCn
    && d.name == g.name && d.lowest == g.lowest && d.highest == g.highest
    && d.jcbHigh == Times(c.jcb, g.highest) && d.masterHigh == Times(c.master, g.highest)
    && d.visaHigh == Times(c.visa, g.highest) && d.jcbLow == Times(c.jcb, g.lowest)
    && d.masterLow == Times(c.master, g.lowest) && d.visaLow == Times(c.visa, g.lowest)
  }

  /** Every output row has a name and all six prices, and comes from a
      currency row and a game row of the same country. */
  lemma PriceDetailsSound(currency: seq<CurrencyRow>, games: seq<GameRecord>, d: PriceDetail)
    requires d in PriceDetails(currency, games)
    ensures Priced(d)
    ensures exists c, g :: c in currency && g in games && DerivedFrom(d, c, g)
  {
    var join := OuterJoin(currency, games, SameCountry);
    var derived := Map(join, Derive);
    var kept := DedupBy(derived, Identity);
    FilterMembers(kept, Priced, d);
    DedupByProperties(derived, Identity);
    var k :| 0 <= k < |derived| && derived[k] == d;
    var (c, p) := join[k];
    assert join[k] in join;
    OuterJoinSound(currency, games, SameCountry, c, p);
    assert p.Some? by {
      assert d == Derive((c, p));
    }
    assert DerivedFrom(d, c, p.value);
  }

  /** Conversely, every pair of a currency row and a game row of the same
      country whose derived row is complete reaches the output. */
  lemma PriceDetailsComplete(currency: seq<CurrencyRow>, games: seq<GameRecord>, c: CurrencyRow, g: GameRecord)
    requires c in currency && g in games && SameCountry(c, g)
    requires Priced(Derive((c, Some(g))))
    ensures Derive((c, Some(g))) in PriceDetails(currency, games)
  {
    var join := OuterJoin(currency, games, SameCountry);
    var derived := Map(join, Derive);
    var kept := DedupBy(derived, Identity);
    var d := Derive((c, Some(g)));
    OuterJoinComplete(currency, games, SameCountry, c);
    var k :| 0 <= k < |join| && join[k] == (c, Some(g));
    assert derived[k] == d;
    FindFirst(derived, Identity, k);
    DedupByProperties(derived, Identity);
    FilterMembers(kept, Priced, d);
  }

  /** No two output rows are equal. */
  lemma PriceDetailsDistinct(currency: seq<CurrencyRow>, games: seq<GameRecord>)
    ensures forall i, j :: 0 <= i < j < |PriceDetails(currency, games)| ==>
      PriceDetails(currency, games)[i] != PriceDetails(currency, games)[j]
  {
    var derived := Map(OuterJoin(currency, games, SameCountry), Derive);
    DedupByProperties(derived, Identity);
    FilterKeepsDistinct(DedupBy(derived, Identity), Priced, Identity);
  }

  /** A row of src/price_details.py: the eleven projected columns. */
  datatype CardRow = CardRow(
    name: Option<string>,
    country: Option<string>,
    countryCode: Option<string>,
    currency: Option<string>,
    currencyCn: Option<string>,
    updated: Option<string>,
    lowest: Option<real>,
    highest: Option<real>,
    jcb: Option<real>,
    master: Option<real>,
    visa: Option<real>)

  /** The loop over the card columns: each is first set to rate × lowest,
      then that value is multiplied by highest. */
  function Overwrite(p: (CurrencyRow, Option<GameRecord>)): CardRow {
    var (c, g) := (p.0, Side(p.1));
    CardRow(g.name, g.country, c.countryCode, c.currency, c.currencyCn, c.updated, g.lowest, g.highest,
      Times(Times(c.jcb, g.lowest), g.highest),
      Times(Times(c.master, g.lowest), g.highest),
      Times(Times(c.visa, g.lowest), g.highest))
  }

  /** src/price_details.py's `get_price_details`: no dedup and no
      null-drop. */
  function CardDetails(currency: seq<CurrencyRow>, games: seq<GameRecord>): (r: seq<CardRow>)
    ensures |r| >= |currency|
  {
    Map(OuterJoin(currency, games, SameCountry), Overwrite)
  }

  /** Every currency row keeps at least one output row, with its code and
      currency, whether or not a game row matched. */
  lemma CardDetailsKeepsCurrency(currency: seq<CurrencyRow>, games: seq<GameRecord>, c: CurrencyRow)
    requires c in currency
    ensures exists k :: (
      && 0 <= k < |CardDetails(currency, games)|
      && CardDetails(currency, games)[k].countryCode == c.countryCode
      && CardDetails(currency, games)[k].currency == c.currency)
  {
    var join := OuterJoin(currency, games, SameCountry);
    OuterJoinComplete(currency, games, SameCountry, c);
    if exists g :: g in games && SameCountry(c, g) {
      var g :| g in games && SameCountry(c, g);
      var k :| 0 <= k < |join| && join[k] == (c, Some(g));
      assert CardDetails(currency, games)[k] == Overwrite(join[k]);
    } else {
      var k :| 0 <= k < |join| && join[k] == (c, None);
      assert CardDetails(currency, games)[k] == Overwrite(join[k]);
    }
  }

  /** Every output row holds, in each card column, the rate times lowest
      times highest of a matching game row, or NaN when there is none. */
  lemma CardDetailsRows(currency: seq<CurrencyRow>, games: seq<GameRecord>, k: nat)
    requires k < |CardDetails(currency, games)|
    ensures var r := CardDetails(currency, games)[k];
      exists c :: c in currency && r.countryCode == c.countryCode && (
        || (r.name.None? && r.jcb.None? && r.master.None? && r.visa.None? && forall g :: g in games ==> !SameCountry(c, g))
        || exists g :: (
          && g in games && SameCountry(c, g) && r.name == g.name
          && r.jcb == Times(Times(c.jcb, g.lowest), g.highest)
          && r.master == Times(Times(c.master, g.lowest), g.highest)
          && r.visa == Times(Times(c.visa, g.lowest), g.highest)))
  {
    var join := OuterJoin(currency, games, SameCountry);
    var (c, p) := join[k];
    assert join[k] in join;
    OuterJoinSound(currency, games, SameCountry, c, p);
    if p.Some? {
      assert SameCountry(c, p.value);
    }
  }

  /** The evident intent of the loop in src/price_details.py: each card's
      price range, rate × lowest and rate × highest, as `get_price_details`
      of src/ingame_price.py derives it, over the same left merge. */
  function CardRanges(currency: seq<CurrencyRow>, games: seq<GameRecord>): (r: seq<PriceDetail>)
    ensures |r| == |OuterJoin(currency, games, SameCountry)|
  {
    Map(OuterJoin(currency, games, SameCountry), Derive)
  }

  /** Every row of the intended table is the range of a currency row and a
      matching game row, or has no name and no prices when its currency row
      matched nothing. */
  lemma CardRangesRows(currency: seq<CurrencyRow>, games: seq<GameRecord>, k: nat)
    requires k < |CardRanges(currency, games)|
    ensures var d := CardRanges(currency, games)[k];
      exists c :: c in currency && d.countryCode == c.countryCode && (
        || (&& d.name.None? && d.jcbLow.None? && d.jcbHigh.None? && d.masterLow.None?
            && d.masterHigh.None? && d.visaLow.None? && d.visaHigh.None?
            && forall g :: g in games ==> !SameCountry(c, g))
        || exists g :: g in games && DerivedFrom(d, c, g))
  {
    var join := OuterJoin(currency, games, SameCountry);
    var (c, p) := join[k];
    assert join[k] in join;
    OuterJoinSound(currency, games, SameCountry, c, p);
    if p.Some? {
      assert DerivedFrom(CardRanges(currency, games)[k], c, p.value);
    }
  }

  /** With a non-negative rate and lowest <= highest, each card's range
      runs from its low price up to its high price. */
  lemma CardRangeOrdered(c: CurrencyRow, g: GameRecord, d: PriceDetail)
    requires DerivedFrom(d, c, g)
    requires g.lowest.Some? && g.highest.Some? && g.lowest.value <= g.highest.value
    requires c.jcb.Some? && c.master.Some? && c.visa.Some?
    requires c.jcb.value >= 0.0 && c.master.value >= 0.0 && c.visa.value >= 0.0
    ensures d.jcbLow.value <= d.jcbHigh.value
    ensures d.masterLow.value <= d.masterHigh.value
    ensures d.visaLow.value <= d.visaHigh.value
  {
  }

  /** A rate of 30 and a range of 10 to 20: the as-written loop leaves
      30 × 10 × 20 = 6000 in each card column, where the intended range is
      300 to 600. */
  lemma CardDetailsSquared()
    ensures var c := CurrencyRow(Some("TW"), None, None, None, Some(30.0), Some(30.0), Some(30.0));
      var g := GameRecord(Some("g"), Some("TW"), Some(10.0), Some(20.0));
      && CardDetails([c], [g]) == [CardRow(Some("g"), Some("TW"), Some("TW"), None, None, None,
           Some(10.0), Some(20.0), Some(6000.0), Some(6000.0), Some(6000.0))]
      && CardRanges([c], [g])[0].jcbLow == Some(300.0)
      && CardRanges([c], [g])[0].jcbHigh == Some(600.0)
  {
    var c := CurrencyRow(Some("TW"), None, None, None, Some(30.0), Some(30.0), Some(30.0));
    var g := GameRecord(Some("g"), Some("TW"), Some(10.0), Some(20.0));
    assert SameCountry(c, g);
    assert [g][1..] == [];
    assert Filter([g], b => SameCountry(c, b)) == [g] + Filter([], b => SameCountry(c, b));
    assert Matches(c, [g], SameCountry) == [g];
    assert OuterJoin([c], [g], SameCountry) == [(c, Some(g))];
  }
}
