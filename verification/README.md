# ingame-price-finder, modelled in Dafny

ingame-price-finder looks up a mobile game's in-app purchase price in
every Google Play country. It converts each price to New Taiwan dollars
with the credit-card exchange rates that a rate site publishes for Visa,
Mastercard (萬事達) and JCB. The repository holds several generations of
the same pipeline:
- several scrapers for the rate site's country menu and its per-currency
  rate pages;
- several spreadsheet and CSV builders that write a rate sheet with
  `=C{n}*E{n}` formulas;
- several Play Store price fetchers;
- the pandas joins that multiply a price by a card's rate;
- an SQLite store that serves as a three-day cache;
- the little utilities (game-name cleaning, the listing filter of the web
  page).

The model has one Dafny module per source file, plus shared modules:
- `RateCell`: the cell parsers and the rate-cell cleaning;
- `RatePage`: URLs, menu entries and the dictionary fold over a rate
  table's rows;
- `RateRecord`: the two record shapes the fold produces;
- `Regex`: the regular expressions the code uses;
- `PlayStore`: the price-range split;
- `PriceJoin`: the pandas joins;
- `PyStr`, `Seqs` and `Tables`: Python's `str` methods, list and dict
  operations, and the frame operations (outer join, deduplication,
  completion order).

Anything the code reaches over the network or on disk is a parameter, not
a call:
- the HTTP responses, as a function from URL to response;
- the parsed HTML, as a record of the fields the code reads;
- the Play Store app, as a function from (package id, language, country)
  to price text;
- `price_parser`;
- the browser;
- the clock, as a time in whole seconds;
- the files and the database.

Each scraper version's error behaviour is modelled as that version has
it:
- `ValueError` from a cell with two parentheses;
- `IndexError` from a name without `" - "`;
- `KeyError` from a missing `href`;
- `UnboundLocalError` from a status other than 200;
- `ValidationError` from the store's currency refetch, which builds the
  rate scraper without its required field;
- and so on.

Where two versions of a step coexist, a lemma relates them. For example,
`RateCell.ParsersAgree` shows that the loose and the strict cell parsers
agree on a well-formed cell, and `UtilsCurrencyCore.SameAsCurrency` shows
that the `utils` copy behaves exactly like the `src/currency.py` scraper.

## Model

| member | source | states |
|---|---|---|
| RateCell.CleanRate | src/igpf/currency_core.py:55 | a cleaned rate has no non-breaking space and no surrounding whitespace |
| RateCell.CleanRateIdempotent | src/igpf/currency_core.py:55 | cleaning a cleaned rate changes nothing |
| RateCell.ParseStrict | src/igpf/currency_core.py:48-56 | the strict cell parser fails only with ValueError and yields a clean, trimmed rate and a trimmed date |
| RateCell.ParseStrictFails | src/igpf/currency_core.py:50-51 | the strict parser fails exactly when the cell holds two or more `(` |
| RateCell.ParseStrictSplits | src/igpf/currency_core.py:50-55 | a cell `rate(date` with one `(` parses to the cleaned rate and the date without its trailing `)` |
| RateCell.ParseStrictTwo | src/igpf/currency_core.py:50-55 | a cell that splits on `(` into exactly two pieces parses to the cleaned first piece and the stripped second piece |
| RateCell.ParseStrictNoDate | src/currency_core.py:20-27 | a cell without `(` parses to its cleaned text and an empty date |
| RateCell.ParseLoose | src/currency.py:16-23 | the loose parser fails only with ValueError; its date has no `)` and no surrounding whitespace |
| RateCell.ParseLooseFails | src/utils/currency_core.py:10-17 | the loose parser fails exactly when the cell holds two or more `(` |
| RateCell.ParseLooseSplits | src/utils/currency_core.py:10-17 | a cell `rate(date` with one `(` gives the raw rate and the date with every `)` removed |
| RateCell.ParsersAgree | src/currency.py:16-23 | on a well-formed cell `rate(date)` both parsers give the same date, and the rates agree once cleaned |
| RateCell.StrictClosed | src/igpf/currency_core.py:48-56 | a well-formed cell `rate(date)` parses strictly to the cleaned rate and the stripped date |
| RateCell.LooseClosed | src/currency.py:16-23 | a well-formed cell `rate(date)` parses loosely to the raw rate and the stripped date |
| RateCell.DisplayName | src/igpf/currency_core.py:84-90 | a currency's display name is cleaned and trimmed |
| RateCell.DisplayNameFails | src/currency_core.py:80-85 | reading the display name fails exactly when the anchor text has no `" - "` |
| RateCell.DisplayNameOf | src/currency.py:31-37 | the anchor `CODE - name&nbsp;&nbsp;…` gives the cleaned name |
| RatePage.RateUrl | src/igpf/currency_core.py:73 | the rate page URL is the site prefix, the currency code and the suffix, with the code recoverable from its position |
| RatePage.RateUrlInjective | src/igpf/currency_core.py:73 | different currency codes give different rate page URLs |
| RatePage.Href | src/igpf/currency_core.py:36 | reading `a["href"]` gives the link, TypeError for a missing anchor and KeyError for a missing `href` |
| RatePage.MenuText | src/igpf/currency_core.py:33-35 | a menu entry `CODE - name` splits into its code and its name |
| RatePage.MenuName | src/currency_core.py:48-49 | the text after the last `" - "` of a stripped menu entry is the currency name |
| RatePage.NameOrPlaceholder | src/currency.py:30-37 | a page without the name anchor gets the placeholder name; otherwise the display name is read, with its failure |
| RatePage.Step | src/igpf/currency_core.py:92-98 | one row sets its card's rate and leaves the other keys; the first date is kept and the last one replaced |
| RatePage.FoldRows | src/igpf/currency_core.py:91-99 | the fold keeps every key it starts with, and keeps a first date it already has |
| RatePage.FoldErrFirst | src/igpf/currency_core.py:91-99 | a failed fold fails at its first unparsable qualifying row, with that row's error |
| RatePage.FoldBadErr | src/igpf/currency_core.py:91-99 | any unparsable qualifying row makes the fold fail |
| RatePage.FoldFails | src/igpf/currency_core.py:91-99 | the fold fails exactly when some qualifying row's cell does not parse |
| RatePage.FoldErrorFrom | src/currency.py:44 | the fold's error is the cell parser's error |
| RatePage.FoldUntouched | src/currency.py:39-56 | a key that no row labels keeps its value from before the fold |
| RatePage.FoldParses | src/igpf/currency_core.py:92-98 | after a successful fold, every qualifying row's cell parses |
| RatePage.FoldLastWins | src/currency_core.py:86-93 | a card labelled by several rows gets the rate of the last of them |
| RatePage.FoldNoRows | src/currency.py:39-41 | a table without qualifying rows leaves the dictionary as it was |
| RatePage.FoldLastDate | src/igpf/currency_core.py:92-99 | the update time is the date of the last qualifying row |
| RatePage.FoldFirstDate | src/currency.py:47-55 | the record's date is the date of the first qualifying row |
| RatePage.FoldFindsDate | src/igpf/currency_core.py:91-99 | a date is found exactly when some row qualifies |
| RateRecord.Lookup | src/typings/currency_rate.py:4-12 | looking up a key succeeds exactly when the key is present, with its value |
| RateRecord.FromDict | src/typings/currency_rate.py:4-12 | `CurrencyRate(**d)` takes code, name and time from their keys, and each card's rate from its alias key when present |
| RateRecord.StrictPair | src/igpf/currency_core.py:48-56 | the pair the fold reads succeeds exactly when the strict parse does, with its rate and date |
| RateRecord.StrictDict | src/igpf/currency_core.py:91-99 | a successful strict dictionary has the code, name and update-time keys |
| RateRecord.StrictStart | src/igpf/currency_core.py:91 | the fold starts from the code and the name only, without dates |
| RateRecord.StrictDictKey | src/igpf/currency_core.py:91-99 | every key but the update time holds what the fold left |
| RateRecord.StrictRecordFails | src/igpf/currency_core.py:91-101 | an unparsable cell gives ValueError; otherwise the record fails, with UnboundLocalError, exactly when no row qualifies (`updated_time` is never assigned) |
| RateRecord.StrictRecordCard | src/igpf/currency_core.py:92-98 | a card's rate is that of the last row labelled with the card |
| RateRecord.StrictRecordNoCard | src/igpf/currency_core.py:91-101 | a card that no row labels has no rate |
| RateRecord.StrictRecordDate | src/igpf/currency_core.py:99 | the update time is the date of the last qualifying row |
| RateRecord.StrictRecordNames | src/igpf/currency_core.py:91 | without rows labelled as code or name, the record keeps the code and name it was asked for |
| RateRecord.LoosePair | src/currency.py:45 | the loose pair succeeds exactly when the loose parse does, with the cleaned rate |
| RateRecord.FreshRecord | src/currency.py:47-55 | a fresh record has the code and date, no rate for any card, and the name when the scheme carries one |
| RateRecord.Present | src/currency.py:56 | a record read back from the dictionary has the same keys and values |
| RateRecord.LooseRecords | src/currency.py:39-58 | the loose scraper returns at most one record |
| RateRecord.LooseRecordsShape | src/currency.py:39-58 | it fails with ValueError exactly on an unparsable cell, and returns one record exactly when some row qualifies |
| RateRecord.LooseRecordsDate | src/currency.py:47-55 | the record's date is that of the first qualifying row |
| RateRecord.LooseRecordsCard | src/currency.py:56 | a card's rate is the cleaned rate of the last row labelled with the card |
| RateRecord.LooseRecordsNoCard | src/currency.py:47-55 | a card that no row labels keeps its empty value |
| CurrencyCore.BaseUrl | src/currency_core.py:16-17 | the rate URL of a currency is the site, the path, the currency and the suffix |
| CurrencyCore.BaseUrlInjective | src/currency_core.py:16-17 | two currencies share a URL exactly when they are equal |
| CurrencyCore.CatalogEntry | src/currency_core.py:48-52 | a menu entry gives a one-entry dict with the absolute link, or the error of reading the link |
| CurrencyCore.CatalogEntryOf | src/currency_core.py:48-52 | the entry `CODE - name` with link `h` gives `{name: site + h}` |
| CurrencyCore.GetAllCurrency | src/currency_core.py:29-55 | no response is a request error, a non-200 status is UnboundLocalError, and success gives one dict per menu item |
| CurrencyCore.GetAllCurrencyEntries | src/currency_core.py:45-52 | the `i`-th dict is the entry of the `i`-th menu item |
| CurrencyCore.FetchCurrencyRates | src/currency_core.py:57-95 | no response is a request error and a non-200 status is TypeError; on status 200 an anchor text without ` - ` is IndexError, and an anchor with a display name gives the strict record under that name |
| CurrencyCore.FetchCurrencyRatesOutcome | src/currency_core.py:72-95 | on status 200 the call is IndexError exactly when the anchor text lacks ` - `, and succeeds exactly when the anchor is absent or well formed, every labelled cell parses and some row takes part |
| CurrencyCore.FetchCurrencyRatesAnchored | src/currency_core.py:77-86 | a success on a page with the name anchor records the requested country as English name and the anchor's display name as Chinese name, unless a row overrides them |
| CurrencyCore.FetchCurrencyRatesNoAnchor | src/currency_core.py:77-86 | a page without the name anchor gives a record with the requested code and the placeholder name |
| IgpfCurrencyCore.ListingEntry | src/igpf/currency_core.py:33-43 | a menu entry gives a country currency with the absolute link, or the error of reading the link |
| IgpfCurrencyCore.ListingEntryOf | src/igpf/currency_core.py:33-37 | the entry `CODE - name` with link `h` gives the lower-cased code, the name and `site + h` |
| IgpfCurrencyCore.GetCountryList | src/igpf/currency_core.py:11-46 | no response is a request error, a non-200 status is ValueError, and success gives one entry per menu item |
| IgpfCurrencyCore.GetCountryListEntries | src/igpf/currency_core.py:26-44 | the `i`-th entry is that of the `i`-th menu item |
| IgpfCurrencyCore.CurrencyName | src/igpf/currency_core.py:80-90 | a missing name anchor is AttributeError (`.text` is read before the test); otherwise the display name |
| IgpfCurrencyCore.GetCurrencyRate | src/igpf/currency_core.py:58-101 | the request, status and anchor errors, in the order the code meets them; an anchor text without ` - ` is IndexError, and a well-formed anchor gives the strict record under its display name |
| IgpfCurrencyCore.GetCurrencyRateOutcome | src/igpf/currency_core.py:72-101 | on status 200 the call is IndexError exactly when the anchor text lacks ` - `, and succeeds exactly when the anchor is present and well formed, every labelled cell parses and some row takes part |
| IgpfCurrencyCore.GetCurrencyRateNames | src/igpf/currency_core.py:77-101 | a success without name-labelled rows records the requested code as English name and the anchor's display name as Chinese name |
| IgpfCurrencyCore.FetchCurrencyRates | src/igpf/currency_core.py:103-115 | one code gives a one-element list; `"all"` fetches the whole menu |
| IgpfCurrencyCore.FetchAll | src/igpf/currency_core.py:105-111 | the `"all"` fetch returns one rate per menu entry |
| IgpfCurrencyCore.FetchAllInOrder | src/igpf/currency_core.py:105-111 | it succeeds exactly when every entry's fetch does, and the `i`-th rate is that of the `i`-th entry |
| GetCurrency.RawEntry | src/get_currency.py:14-17 | a menu entry gives a one-entry dict holding the relative link |
| GetCurrency.RawEntryOf | src/get_currency.py:14-17 | the entry `CODE - name` with link `h` gives `{name: h}` |
| GetCurrency.GetAllCurrency | src/get_currency.py:6-21 | no response is a request error, a non-200 status is UnboundLocalError, and success gives one dict per menu item |
| GetCurrency.GetAllCurrencyEntries | src/get_currency.py:13-18 | the `i`-th dict is the entry of the `i`-th menu item |
| Currency.ParseCurrencyRates | src/currency.py:25-58 | the page scraper returns at most one record |
| Currency.ParseCurrencyRatesFails | src/currency.py:31-44 | a name without `" - "` gives IndexError before any row is read; otherwise the result is that of the row fold |
| Currency.ParseCurrencyRatesName | src/currency.py:30-50 | the record's `Currency_CN` is the placeholder without an anchor, else the display name |
| Currency.FetchCurrencyRates | src/currency.py:60-68 | the fetch yields records exactly when the response is good and the page parses, and they are the page's records |
| Currency.CodeDictDistinct | src/currency.py:99-103 | the country-to-code dict never repeats a country or a code |
| Currency.CodeDictDedup | src/currency.py:97-103 | the dict holds the catalog rows that are first with their code, in catalog order |
| Currency.Project | src/currency.py:82-93 | the projected row keeps the catalog's country and code; its six other columns are the fetched record's values for those keys (missing keys NaN), or all NaN without a record |
| Currency.Combine | src/currency.py:76-95 | the combination fails exactly when nothing was fetched |
| Currency.CombineCovers | src/currency.py:79-94 | every catalog country appears in the combined table, at most once |
| Currency.CombineSound | src/currency.py:79-93 | every combined row comes from a catalog row and carries the values of a fetched record of the same currency, or is all NaN when no record has that currency |
| Currency.GetCountryCodeDictCovers | src/currency.py:97-115 | the country table covers every catalog country, without repetition |
| UtilsCurrencyCore.ParseCurrencyRates | src/utils/currency_core.py:19-52 | the page scraper returns at most one record |
| UtilsCurrencyCore.FetchCurrencyRates | src/utils/currency_core.py:54-62 | no response or an error status gives nothing |
| UtilsCurrencyCore.SameAsCurrency | src/utils/currency_core.py:19-62 | the `utils` copy of the scraper behaves exactly as `src/currency.py` |
| UtilsCurrencyCore.FetchCurrencyRatesShape | src/utils/currency_core.py:19-62 | a good response yields nothing exactly when the currency anchor has no display name or a cell does not parse; otherwise one record when some row takes part and none when no row does |
| RootCurrency.ParseCurrencyRates | currency.py:20-43 | the first scraper returns at most one record and fails only with ValueError |
| RootCurrency.FetchCurrencyRates | currency.py:45-55 | no response or a raised status leaves `result` unassigned (UnboundLocalError) |
| RootCurrency.ParseCurrencyRatesRecord | currency.py:33-41 | the record holds the code under `currency`, the first qualifying date under `更新日期`, and no rate for an unlabelled card |
| RootCurrency.OverwriteUntouched | currency.py:64-65 | a country absent from the catalog keeps its earlier value |
| RootCurrency.OverwriteLast | currency.py:64-65 | a country's code is that of its last catalog row |
| RootCurrency.OverwriteDistinct | currency.py:63-65 | the overwriting dict never repeats a country |
| RootCurrency.GetCountryCodeDictFails | currency.py:61-72 | the country table fails exactly when a fetch of one of the dict's codes fails |
| Regex.SkipSpace | src/get_currency_rate.py:31 | `\s*` consumes exactly the whitespace run |
| Regex.GroupAt | src/get_currency_rate.py:31 | a matched `\s*\([^)]*\)` ends at a `)` |
| Regex.SubGroupsClean | src/get_currency_rate.py:31 | after the substitution no parenthesised group is left, and no `)` appears that was not in the text |
| Regex.GetPrice | src/get_currency_rate.py:19-32 | `get_price` leaves no parenthesised group |
| Regex.GetPriceNoop | src/get_currency_rate_async.py:21-34 | text without a group is returned unchanged |
| Regex.GetPriceIdempotent | src/get_currency_rate_async.py:21-34 | applying `get_price` twice is applying it once |
| Regex.GetPriceGroup | src/get_currency_rate.py:19-32 | a group with its leading whitespace, after text with no `(` that does not end in whitespace, is deleted and the scan goes on with the rest: `get_price(a + w + (d) + b) == a + get_price(b)` |
| Regex.FirstGroup | src/get_currency_rate.py:19-32 | every text with a group splits at its first group: the text before the group's whitespace is kept, the group is dropped, and `get_price` continues on what follows |
| Regex.SubGroupsFirstGroup | src/get_currency_rate.py:31 | the substitution copies everything before the first match and restarts after it |
| Regex.SubGroupsSuffix | src/get_currency_rate.py:31 | the scan from a position is the substitution applied to the suffix from there |
| Regex.GetPriceDropsDate | src/get_currency_rate.py:19-32 | `rate (date)` gives the rate |
| Regex.GetPriceExample | src/get_currency_rate.py:28-31 | the docstring example `32.24400000 (2023-11-09)` gives `32.24400000` |
| Regex.GetDate | src/get_currency_rate.py:35-48 | `get_date` leaves no parenthesis |
| Regex.GetDateCounts | src/deprecated/get_currency_rate.py:36-49 | every other character is kept, as often as in the input |
| Regex.GetDateAppend | src/deprecated/get_currency_rate.py:36-49 | removing parentheses distributes over concatenation |
| Regex.GetDateIdempotent | src/get_currency_rate_async.py:37-50 | `get_date` is idempotent and leaves parenthesis-free text alone |
| Regex.GetDateUnwraps | src/get_currency_rate.py:35-48 | `(date)` gives the date |
| Regex.GetDateExample | src/get_currency_rate.py:35-48 | `(2023-11-09)` gives `2023-11-09` |
| Regex.DigitRun | src/game_info.py:37-38 | a digit run stops at the first non-digit |
| Regex.FirstDigit | src/game_info.py:37-38 | the first digit found has no digit before it |
| Regex.NumberEnd | src/game_info.py:37-38 | a number match is non-empty |
| Regex.FirstNumber | src/game_info.py:37-38 | a number is found exactly when some digit is |
| Regex.FirstNumberMatches | src/game_info.py:37-38 | the number found starts at the first digit of the text and is the greedy match of `\d+\.?\d*` there |
| RateSheet.ReferencedRow | src/get_currency_rate.py:90-94 | a formula refers to a row only when it starts with `=C` |
| RateSheet.FormulaRow | src/get_currency_rate.py:90-94 | the formula written for row `n` refers to row `n` |
| RateSheet.MasterSplit | src/get_currency_rate.py:81-82 | the Mastercard cell splits exactly when its date-stripped text has two pieces around the non-breaking space |
| RateSheet.MasterSplitFails | src/get_currency_rate.py:81-82 | the split succeeds exactly when the cell holds one non-breaking space |
| RateSheet.MasterSplitOf | src/get_currency_rate_async.py:82-83 | `rate\xa0(date)` splits into the rate and the date |
| RateSheet.ScrapePage | src/get_currency_rate.py:75-83 | a page yields values exactly when all three cells are found and the Mastercard cell splits, with those values |
| RateSheet.SheetRowOf | src/get_currency_rate.py:90-94 | every formula of the `i`-th row refers to spreadsheet row `i + 2` |
| RateSheet.FormulaColumn | src/get_currency_rate.py:90-94 | the formula built with a column letter multiplies by that column |
| RateSheet.SheetRowColumns | src/get_currency_rate.py:84-95 | in the sheet as written, the Visa formula reads the Visa rate, the Master formula reads its own cell, and the JCB formula reads a column past the last |
| RateSheet.SheetRowOfIntended | src/get_currency_rate.py:84-95 | the intended row: every formula refers to row `i + 2` and multiplies by its own card's rate column |
| RateSheet.Sheet | src/get_currency_rate.py:66-109 | the sheet has at most one row per target |
| RateSheet.SheetMembers | src/get_currency_rate.py:75-109 | a row is in the sheet exactly when some target's page scrapes to it; a failing page is skipped |
| RateSheet.SheetRows | src/get_currency_rate.py:84-105 | every sheet row has the amount 2990 and the update time its CSV row has, and comes from a target at its position |
| RateSheet.SheetComplete | src/get_currency_rate_async.py:70-112 | when every page scrapes, the sheet has the `i`-th target's rows at position `i` |
| RateSheet.DeprecatedSheet | src/deprecated/get_currency_rate.py:74-128 | the old sheet has at most one row per target |
| RateSheet.DeprecatedSheetRows | src/deprecated/get_currency_rate.py:77-123 | every old sheet row comes from a target whose `.get` names it carries |
| Exrate.Visit | exrate.py:35-46 | a page without the Visa element leaves the carried values unchanged, and assigned values stay assigned |
| Exrate.VisitFound | exrate.py:36-44 | a page with all four elements sets all four values, whatever was carried |
| Exrate.FirstTokenOf | exrate.py:41-44 | the rate of `rate date` is its first token |
| Exrate.RowOf | exrate.py:45-58 | the row fails with UnboundLocalError exactly when a value was never assigned; otherwise it has the carried values and row `i + 2`'s formula |
| Exrate.States | exrate.py:32-46 | one carried state per country |
| Exrate.StatesStep | exrate.py:32-46 | each country is visited with the values the previous one left |
| Exrate.StatesComplete | exrate.py:35-46 | once all values are assigned they stay assigned |
| Exrate.GetDefaultCountry | exrate.py:28-63 | the loop fails only with UnboundLocalError, else gives one row per country |
| Exrate.GetDefaultCountryFails | exrate.py:32-58 | it fails exactly when the first country's page lacks an element |
| Exrate.GetDefaultCountryCarry | exrate.py:35-58 | a country without a Visa element repeats the previous country's rates and date |
| Exrate.GetDefaultCountryRows | exrate.py:47-58 | the `i`-th row has the `i`-th country, currency and amount, and its formula refers to row `i + 2` |
| PlayStore.PriceRange | src/ingame_price.py:58-59 | a price text is a range exactly when it splits around ` - ` into two pieces, and the pieces rebuild it |
| PlayStore.PriceRangeOf | src/igpf/ingame_price.py:48-52 | `lo - hi` with the unit removed gives `lo` and `hi` |
| IngamePrice.FetchSingle | src/ingame_price.py:38-64 | the record has the asked name and country; a failed fetch has neither bound |
| IngamePrice.FetchSingleOf | src/ingame_price.py:57-62 | a range text gives the parsed amounts of both ends |
| IngamePrice.GameDetails | src/ingame_price.py:27-36 | without a match the target's own name is kept |
| IngamePrice.GameDetailsFirst | src/ingame_price.py:31-36 | the id is missing exactly when no catalog game matches; otherwise name and id come from the first match |
| IngamePrice.FetchRecords | src/ingame_price.py:116-139 | the fetch fails with KeyError exactly when there are no country codes |
| IngamePrice.FetchRecordsSound | src/ingame_price.py:134-139 | every kept record has both bounds, the resolved name and a listed country |
| IngamePrice.FetchRecordsComplete | src/ingame_price.py:124-139 | every country whose fetch has both bounds is kept, in any completion order |
| IngamePrice.FetchData | src/ingame_price.py:116-145 | the join with the currency table happens exactly when one is passed |
| PriceJoin.Times | src/ingame_price.py:92-98 | a product exists exactly when both factors do, and is their product |
| PriceJoin.PriceDetails | src/utils/datamodule.py:10-56 | the details are no more than the rows of the outer join |
| PriceJoin.PriceDetailsSound | src/ingame_price.py:70-113 | every detail is fully priced and derived from a currency row and a game record of the same country |
| PriceJoin.PriceDetailsComplete | src/utils/datamodule.py:11-55 | every fully priced match of a currency row with a game record appears |
| PriceJoin.PriceDetailsDistinct | src/ingame_price.py:101 | no detail appears twice |
| PriceJoin.CardDetails | src/price_details.py:9-35 | the card table has at least one row per currency row |
| PriceJoin.CardDetailsKeepsCurrency | src/price_details.py:12-14 | every currency row appears in the card table |
| PriceJoin.CardDetailsRows | src/price_details.py:12-34 | each card column holds rate × lowest × highest of a matching game row, and is NaN, with no name, when there is none |
| PriceJoin.CardDetailsSquared | src/price_details.py:31-34 | a rate of 30 on a range of 10 to 20 leaves 6000 in each card column, where the range is 300 to 600 |
| PriceJoin.CardRanges | src/price_details.py:12-34 | the intended table: one row per merged row |
| PriceJoin.CardRangesRows | src/price_details.py:12-34 | each intended row is the card range (rate × lowest, rate × highest) of a currency row and a matching game row, or has no name and no prices when the currency row matched nothing |
| PriceJoin.CardRangeOrdered | src/price_details.py:31-34 | with non-negative rates and lowest <= highest, each intended card range runs from low to high |
| IgpfIngamePrice.Fetch | src/igpf/ingame_price.py:44-59 | a failed fetch records both bounds as 0.0; a successful one the parsed amounts; name and country always kept |
| IgpfIngamePrice.FetchNeedsBoth | src/igpf/ingame_price.py:46-47 | without an id or a name the Play Store is never asked |
| IgpfIngamePrice.GameInfoListAsWritten | src/igpf/ingame_price.py:29-42 | the filter as written returns all entries or none |
| IgpfIngamePrice.GameInfoListLeftover | src/igpf/ingame_price.py:38-41 | two games, the first searched for: the filter as written returns nothing, the intended one returns the first game |
| IgpfIngamePrice.GameInfoList | src/igpf/ingame_price.py:29-42 | the intended filter returns a sub-list |
| IgpfIngamePrice.GameInfoListFilters | src/igpf/ingame_price.py:38-42 | an entry is listed exactly when it passes the name filter, else the id filter, else none |
| IgpfIngamePrice.FetchGameInfo | src/igpf/ingame_price.py:61-72 | an id and a name give one record; otherwise one record per game the filter as written lists |
| IgpfIngamePrice.FetchGameInfoAllOrNone | src/igpf/ingame_price.py:38-72 | without both an id and a name, the records are all the loaded games' in order, or none |
| IgpfIngamePrice.FetchGameInfoOrder | src/igpf/ingame_price.py:66-72 | the `i`-th record is the fetch of the `i`-th game the filter as written lists |
| IgpfIngamePrice.FetchGameInfoIntended | src/igpf/ingame_price.py:61-72 | with the intended filter: an id and a name give one record; otherwise one record per listed game |
| IgpfIngamePrice.FetchGameInfoIntendedOrder | src/igpf/ingame_price.py:66-72 | with the intended filter, the `i`-th record is the fetch of the `i`-th listed game |
| IgpfIngamePrice.FetchGameInfoLeftover | src/igpf/ingame_price.py:38-41 | searching [天堂W, 原神] for 天堂W fetches nothing as written, and 天堂W with the intended filter |
| GameInfoEn.Reached | src/game_info.py:23-32 | the loop never reaches more games than there are |
| GameInfoEn.ReachedBySelection | src/game_info.py:26-32 | a name, an empty or a negative selection reaches every game; a positive count reaches that many |
| GameInfoEn.GameRow | src/game_info.py:33-47 | a row has the game's name and the country |
| GameInfoEn.GameRowFails | src/game_info.py:33-47 | a game is skipped exactly when its price text has no range or an end without a number |
| GameInfoEn.GameRowNumbers | src/game_info.py:37-38 | the bounds are the first numbers of the two ends of the range |
| GameInfoEn.FetchGameInfo | src/game_info.py:19-49 | the loop computes the table of the reached games |
| GameInfoEn.TableMembers | src/game_info.py:23-47 | a row is in the table exactly when a reached game gives it |
| GamePrices.GameInfo | src/get_game_prices.py:26-33 | the info has the game's name, the country and the English price text |
| GamePrices.PriceToken | src/get_game_prices.py:52 | no price text gives no price |
| GamePrices.PriceTokenFails | get_prices.py:44 | the upper price is missing exactly when no space follows the last `-`; it never contains a space |
| GamePrices.PriceTokenOf | multi.py:40 | `lo- tok tail` gives `tok` |
| GamePrices.PricesInOrder | src/get_game_prices.py:40-53 | an empty list is KeyError; otherwise one row per game, in order |
| GamePrices.PricesInOrderRows | src/single_core.py:33-43 | the `i`-th row is the `i`-th game's upper price |
| GamePrices.PricesCompleted | src/get_game_prices.py:55-67 | the concurrent version gives one row per game |
| GamePrices.CompletedIsReordering | get_prices.py:35-45 | the concurrent version is the sequential one in completion order |
| GamePrices.CompletedCovers | multi.py:31-41 | every game's row appears in the concurrent table |
| Listing.InsertPerm | index.py:19 | inserting adds exactly one row |
| Listing.InsertSorted | index.py:19 | inserting into a sorted table keeps it sorted |
| Listing.SortSpec | index.py:19 | the sort is ascending by JCB, Mastercard, Visa and permutes its input |
| Listing.FilterGames | index.py:13-20 | a game missing from the search dict is KeyError; otherwise no more rows than the file |
| Listing.FilterGamesSpec | index.py:17-20 | the table is sorted, holds exactly the positive rows, each as often as the file |
| CleanName.DropSymbols | src/utils/clean_name.py:5 | only word and space characters remain |
| CleanName.DropSymbolsAppend | src/utils/clean_name.py:5 | dropping symbols distributes over concatenation |
| CleanName.DropSymbolsNoop | src/utils/clean_name.py:5 | a name of word and space characters is unchanged |
| CleanName.UnderscoreWords | src/utils/clean_name.py:6 | after replacing whitespace runs, only word characters remain |
| CleanName.UnderscoreNoop | src/utils/clean_name.py:6 | a name without whitespace is unchanged |
| CleanName.UnderscoreRun | src/utils/clean_name.py:6 | a whitespace run between two parts becomes one `_` |
| CleanName.CleanGameName | src/utils/clean_name.py:4-7 | a cleaned name has only word characters and no space |
| CleanName.CleanGameNameIdempotent | src/utils/clean_name.py:4-7 | cleaning a cleaned name changes nothing |
| CleanName.DropSymbolsLetters | src/utils/clean_name.py:5 | dropping symbols keeps every letter and digit, in order |
| CleanName.UnderscoreLetters | src/utils/clean_name.py:6 | replacing whitespace keeps every letter and digit, in order |
| CleanName.CleanGameNameKeepsLetters | src/utils/clean_name.py:4-7 | the cleaned name has the letters and digits of the name, in order |
| Cache.TableNames | src/datamodule.py:21-31 | the listed names are stored tables, and none are listed when listing raises |
| Cache.Save | src/datamodule.py:33-38 | an empty frame is not written; any other replaces the table |
| Cache.Read | src/datamodule.py:40-42 | in the model, reading succeeds exactly when the table exists and its name holds no `'` (the name is spliced into `'...'` in the SQL text); every failure is a DatabaseError |
| Cache.SaveOthers | src/datamodule.py:33-38 | saving one table leaves the others |
| Cache.SaveThenRead | src/datamodule.py:33-42 | a saved non-empty frame reads back, unless its name holds a `'`, when the read raises DatabaseError |
| Cache.Cached | src/datamodule.py:40-52 | a listed name raises exactly when its read fails (DatabaseError) or its table is empty (IndexError); a hit is a readable table whose first row is less than three days old |
| Cache.StampAll | src/datamodule.py:55-59 | one stamped row per row |
| Cache.StampAllRows | src/datamodule.py:55-59 | each row is stamped with the current time |
| Cache.RatesRoundTrip | src/datamodule.py:55-59 | stripping the stamps gives back the fetched rates |
| Cache.CurrencyRate | src/datamodule.py:44-68 | a hit is served unchanged; a lookup error is raised as is; a miss raises ValidationError, because `CurrencyRate(path=...)` lacks the required `country_name` of src/currency.py:12-13, so nothing is fetched or saved |
| Cache.CurrencyRateIntended | src/datamodule.py:44-68 | the refresh the code means: a hit is served unchanged, and a miss stores the fetched rates stamped with the current time and returns them |
| Cache.CurrencyRatesAgree | src/datamodule.py:48-68 | the program and the intended refresh agree exactly when the cache does not miss; on a miss the first raises ValidationError and the second succeeds |
| Cache.CurrencyRateEmptyStore | src/datamodule.py:61-63 | on an empty store the program raises ValidationError where the intended version fetches and saves |
| Cache.MissPersists | src/datamodule.py:44-68 | since the program's `currency_rate` writes nothing, a store it misses on is missed, and raises, at every later time |
| Cache.ThreeDaysIsStale | src/datamodule.py:51-54 | the comparison is strict: a table exactly three days old is a miss (the program raises ValidationError, the intended version refreshes), one second younger a hit |
| Cache.UnlistableMisses | src/datamodule.py:24-31 | when listing the tables fails, every call misses: the program always raises ValidationError, the intended version always fetches |
| Cache.RefreshThenHit | src/datamodule.py:44-68 | with the intended refresh, a lookup within three days of a refresh is a hit on the new rates |
| Cache.UpdateIngamePrice | src/datamodule.py:70-94 | the error of the cache lookup is raised as is; a hit is served unchanged; a miss while the currency table also misses raises ValidationError from the `currency_rate` read |
| Cache.UpdateIngamePriceIntended | src/datamodule.py:70-94 | over the intended refresh: lookup errors and hits as in the program, and a currency lookup error is raised as is |
| Cache.UpdateIngamePriceMiss | src/datamodule.py:81-94 | on a miss, a currency read that raises makes the call raise the same; otherwise the prices are fetched with the stored rates, and a failed fetch raises its error while a good one is stamped and saved under the name, with nothing else written |
| Cache.UpdateIngamePriceIntendedMiss | src/datamodule.py:81-94 | with the intended refresh, a miss fetches the prices with the rates it returned and saves them stamped on top of the store it saved |
| Cache.NoEmptyTablesKept | src/datamodule.py:33-94 | a store without empty tables raises from the lookup only on a name with a `'` (DatabaseError), and from `currency_rate` never IndexError; the intended refresh always succeeds on it; the program and the intended version both keep it without empty tables |
| Cache.QuotedNameRaises | src/datamodule.py:40-94 | a name with a `'` can be saved once, but every later call for it raises DatabaseError |
| PyStr.Strip | src/igpf/currency_core.py:55 | the stripped text has no surrounding whitespace, and trimmed text is unchanged |
| PyStr.StripIdempotent | src/igpf/currency_core.py:55 | stripping twice is stripping once |
| PyStr.Split | src/igpf/currency_core.py:51 | the pieces join back to the text, and there is one piece exactly when the separator does not occur |
| PyStr.SplitPiecesFree | src/igpf/currency_core.py:51 | no piece contains the separator |
| PyStr.SplitCharCount | src/igpf/currency_core.py:51 | splitting on a character gives one piece more than it occurs |
| PyStr.RemoveAll | src/ingame_price.py:58 | text without the removed pattern is unchanged |
| PyStr.RemoveAllOnce | src/ingame_price.py:58 | removing the one occurrence of the pattern joins the text around it |
| PyStr.Lower | src/igpf/currency_core.py:34 | lower-casing keeps the length, maps each character, and leaves no ASCII capital |
| PyStr.DecimalRoundTrip | src/get_currency_rate.py:90-94 | the decimal text of a row number reads back as that number |
| Seqs.FilterMembers | src/ingame_price.py:138-139 | an element is kept exactly when it is in the list and passes |
| Seqs.CollectMembers | src/game_info.py:33-47 | a value is collected exactly when some element gives it |
| Seqs.MapAllSpec | src/igpf/currency_core.py:107-111 | mapping a fallible function succeeds exactly when every call does, with the results in order |
| Seqs.DedupByProperties | src/ingame_price.py:101 | deduplication keeps the first element with each key, in order, and no key twice |
| Seqs.DedupByIdempotent | src/currency.py:94 | deduplicating twice is deduplicating once |
| Seqs.OrderCovers | src/ingame_price.py:134-136 | a completion order lists every task exactly once |
| Seqs.ReorderFinds | src/ingame_price.py:134-136 | every task's result appears in completion order |
| Tables.OuterJoinSound | src/ingame_price.py:70-72 | every row of the outer join is a matched pair or a left row without a match |
| Tables.OuterJoinComplete | src/ingame_price.py:70-72 | every matching pair and every unmatched left row appears |
| Tables.PutGet | currency.py:64-65 | after a write, the written key reads the new value and every other key its old one |
| Tables.PutDistinct | currency.py:64-65 | writing keeps the keys distinct and adds no entry but the written one |

## Left out

- The network, HTML parsing, Selenium, the Play Store client, `price_parser`, files, the clock and SQLite are parameters. The model states what the code does with their answers, not what they answer.
- Prices and rates read as floats are Dafny `real`s. Float rounding and NaN are not modelled; a missing value is `None`.
- pandas `astype` conversions, `to_csv`, `to_excel` and `to_sql` formatting are not modelled, and neither is the column order of written files, except the rate sheet's header, which its formulas address by letter. Only the rows and the values in them are.
- `ThreadPoolExecutor`/`as_completed` and asyncio: the completion order is a parameter, any permutation of the tasks. Exceptions inside a worker are modelled per task.
- The pandas `query` that matches a catalog game, and the `search_dict.json` lookup, are parameters (a predicate and a map).
- The currency table passed to `fetch_data` is a parameter of `IngamePrice.FetchData`. In `DataBaseManager` it can only come from a fresh stored table, because the refetch in `currency_rate` raises. `CurrencyRateIntended` takes the rates it would have fetched as a parameter. No `get_country_currency` exists in src/currency.py, so what it would have returned is not modelled.
- `update_ingame_price` reads the clock, and the `currency_rate` property it calls reads it again. The model uses one time for both, in whole seconds.
- Cache.Read: every table name containing `'` is taken to raise DatabaseError, because the SQL text is not parsed. SQLite accepts some such names: `t' --` ends the literal and comments out the rest, so it reads table `t`. A name with its quotes doubled, such as `a''b`, reads table `a'b`. The model states these reads as failures.
- `Listing.FilterGamesSpec`: states sortedness and the multiset of rows. That the sort is stable is not stated.
- `\w` is ASCII letters, digits and `_`, plus every non-ASCII character outside the whitespace and the listed punctuation blocks; it does not follow the whole Unicode database. `\d` is ASCII digits. `str.lower` is modelled on ASCII only.
- logfire and logging calls are not modelled; they have no effect on results.
- In `src/igpf/ingame_price.py` the `raise logfire.exception(...)` raises TypeError inside the `try`. It is caught by the same `except`, which is why the model treats every failure alike (`IgpfIngamePrice.Fetch`).
- `GamePrices.GameInfo`: a game is a record with a name and a package id, so the `game["name"]`, `game["packageId"]` and `game["id"]` lookups before the `try` (src/get_game_prices.py:28, get_prices.py:26, multi.py:22, src/single_core.py:25, and src/game_info.py:24-25) cannot fail; the KeyError of a game entry without those keys is not modelled.
- `RateSheet.DeprecatedSheetRows`: the wide CSV row's column layout is stated only for the fields the sheet row shares.
- `src/igpf/_types/game.py`: pydantic validation is reduced to "both bounds are numbers".

## Findings

| source | as written | input that shows it | evidently intended | confidence | as-written member | corrected member |
|---|---|---|---|---|---|---|
| src/igpf/ingame_price.py:38-41 | the list comprehension tests `game_info`, the variable left over from the loading loop (the last entry), instead of the loop variable `info`, so the filter keeps all entries or none | entries [天堂W, 原神] and game name "天堂W" give an empty list | keep each entry whose name (or, without a name, package id) contains the search text | not executed | IgpfIngamePrice.GameInfoListAsWritten and IgpfIngamePrice.FetchGameInfo (shown by IgpfIngamePrice.GameInfoListLeftover and IgpfIngamePrice.FetchGameInfoLeftover) | IgpfIngamePrice.GameInfoList and IgpfIngamePrice.FetchGameInfoIntended (proved by IgpfIngamePrice.GameInfoListFilters and IgpfIngamePrice.FetchGameInfoIntendedOrder) |
| src/price_details.py:31-34 | each card column is set to rate × lowest and then overwritten with that value × highest, so it holds rate × lowest × highest, a product of two prices | a rate of 30 and a range of 10 to 20 give 6000 in every card column | the card's price range: rate × lowest and rate × highest, as `get_price_details` of src/ingame_price.py derives it | not executed | PriceJoin.CardDetails (shown by PriceJoin.CardDetailsSquared) | PriceJoin.CardRanges (proved by PriceJoin.CardRangesRows and PriceJoin.CardRangeOrdered) |
| src/get_currency_rate.py:90-94 | the sheet's columns run A to J in the row dict's order, but the Master formula multiplies by H, its own cell, and the JCB formula by K, a column past the last | any scraped page: the Master result cell refers to itself and the JCB result reads an empty cell | multiply by G (Master匯率) and I (JCB匯率) as the Visa formula multiplies by E (Visa匯率) | not executed | RateSheet.SheetRowOf (shown by RateSheet.SheetRowColumns) | RateSheet.SheetRowOfIntended |
| src/datamodule.py:54-63 | on a miss `currency_rate` builds `CurrencyRate` with only a `path` argument, but the `CurrencyRate` class of src/currency.py has one required field, `country_name`, and no `path`; pydantic raises ValidationError (and the class has no `get_country_currency` to call next) | a store without a `currency_rates` table: the call raises instead of fetching, and so does `update_ingame_price` for any game not cached | fetch the country currency table, stamp it with the current time, save it and return it | not executed | Cache.CurrencyRate and Cache.UpdateIngamePrice (shown by Cache.CurrencyRateEmptyStore and Cache.MissPersists) | Cache.CurrencyRateIntended and Cache.UpdateIngamePriceIntended (proved by Cache.RefreshThenHit and Cache.UpdateIngamePriceIntendedMiss) |
