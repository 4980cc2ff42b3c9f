# Trading Signals Dashboard: price parsing and indicator series

This project models in Dafny the data helpers of the Trading Signals Dashboard's
main component (`dashboard/src/App.tsx`):

- `parseCSV` reads the closing prices out of an uploaded CSV file.
- The price text box is tokenised into prices (`manualPrices`).
- The upload handler writes the parsed prices back into the text box.
- `computeSeries` runs an SMA, EMA or RSI indicator over the prices.
- The table rows line each price up with its indicator value.

The project then proves what these helpers promise.

Modules, one per concern:

| file | module | what it models |
|---|---|---|
| `seqs.dfy` | `Seqs` | `Option` (`undefined`/NaN is `None`) and `Present`, the "keep what converted" filter |
| `jstext.dfy` | `JsText` | the JavaScript string operations the helpers use: `trim`, ASCII `toLowerCase`, `split` on `","`, `/\s+/`, `/[\s,]+/` and `/\r?\n/` as ECMA-262 specifies them (`String.prototype.split` and `RegExp.prototype[@@split]`), and `join` |
| `jsnumber.dfy` | `JsNumber` | `Number(text)` after the StringToNumber grammar of section 7.1.4.1.1 of ECMA-262, and number-to-text, on exact decimals |
| `csvparser.dfy` | `CsvParser` | `parseCSV` as a method with its loop (`ParseCsv`, `CollectValues`), specified by the function `CsvValues` |
| `pricetext.dfy` | `PriceText` | the line-61 tokeniser, `vals.join(',')` and the upload handler |
| `indicators.dfy` | `Indicators` | `computeSeries` as a method driving an `Indicator` object, specified by the fold `Series`, and the table rows |

The indicator library is not modelled. It is a record of four operations over an
indicator state of unknown type: `create(kind, period)`, `update`, `isStable` and
`result`. So everything proved about `computeSeries` holds for any SMA, EMA or RSI
arithmetic whose `update` never throws and whose results are numbers (see
"## Left out"). The source has three `switch` branches that differ only in the
constructor they call. They are one loop here, with the kind passed to `create`.

Numbers are exact decimals in lowest terms, or a signed infinity. NaN is `None`.

Two behaviours of the code differ from what a reader of the helpers might expect.
The model follows the code in both:

- `parseCSV('')` (and `parseCSV` of white space only) returns `[0]`, not `[]`.
  Trimmed empty text still splits into one empty line, so the guard for zero lines
  never applies. `Number('')` is 0. See `CsvParser.BlankCsv`.
- Tokenising the text box, writing the prices back joined with commas, and
  tokenising again gives the same prices only when the first pass found at least
  one. Text with no number in it, such as `"abc"`, gives no prices. Writing no
  prices back gives empty text, and empty text reads as `[0]`. See
  `PriceText.ManualPricesSettle` and `PriceText.ManualPricesUnsettled`. The upload
  handler writes back only a non-empty list, so for the upload the round trip
  always holds (`PriceText.OnCsvText`).

## Model

| member | source | states |
|---|---|---|
| `JsText.Trim` | dashboard/src/App.tsx:10 | the trimmed text is an infix of the text with only white space before and after it, neither starts nor ends with white space, and is empty exactly when the text is all white space |
| `JsText.Split` | dashboard/src/App.tsx:10-11 | a split always has at least one piece, so the `lines.length === 0` guard never applies |
| `JsText.SplitAt` | dashboard/src/App.tsx:23 | text before the first comma (or line break) is the first piece, and splitting goes on after it |
| `JsText.SplitRunPieces` | dashboard/src/App.tsx:61 | pieces of a split on separator runs hold no separator character, and no piece other than the first and the last is empty |
| `JsText.SplitFirstPiece` | dashboard/src/App.tsx:61 | the first piece is empty exactly when the text starts with a separator character |
| `JsText.SplitLastPiece` | dashboard/src/App.tsx:61 | the last piece is empty exactly when the text ends with a separator character |
| `JsText.SplitAfterToken` | dashboard/src/App.tsx:61 | after a bare token and a comma, splitting on `/[\s,]+/` yields the token and goes on with the rest |
| `JsText.SplitJoinRoundTrip` | dashboard/src/App.tsx:61 | splitting on `/[\s,]+/` the comma join of non-empty pieces free of white space and commas gives the pieces back |
| `JsNumber.BlankIsZero` | dashboard/src/App.tsx:24 | empty or all-white-space text converts to 0, not NaN |
| `JsNumber.ToNumberToText` | dashboard/src/App.tsx:111 | converting a number to text and back with `Number` gives the same number |
| `JsNumber.ToTextIsOneToken` | dashboard/src/App.tsx:111 | a number's text is non-empty and holds no white space or comma |
| `CsvParser.Lines` | dashboard/src/App.tsx:10 | the trimmed text has at least one line |
| `CsvParser.FindIndex` | dashboard/src/App.tsx:17-18 | the result is -1 exactly when no header is `close`, `price` or `adj close`; otherwise it is a header name and no earlier header is one |
| `CsvParser.DetectLayout` | dashboard/src/App.tsx:13-20 | the separator is a comma exactly when the first line holds one and runs of white space otherwise; data starts at line 1 exactly when some lower-cased first-line cell is a header name, and the value column is then the first such cell; otherwise data starts at line 0 in column 0 |
| `CsvParser.CsvValues` | dashboard/src/App.tsx:21-27 | at most one price per data line: no more prices than lines minus the header |
| `CsvParser.ParseCsv` | dashboard/src/App.tsx:8-28 | the step-by-step parse returns exactly `CsvValues` of the text |
| `CsvParser.CollectValues` | dashboard/src/App.tsx:21-26 | the loop pushes, in line order, exactly the value cells that are not NaN |
| `CsvParser.CsvMembership` | dashboard/src/App.tsx:21-26 | a price is returned exactly when some data line has it, not NaN, in its value column |
| `CsvParser.DataMembership` | dashboard/src/App.tsx:22-25 | the same, for any lines and layout |
| `Seqs.PresentPrefix` | dashboard/src/App.tsx:25 | values keep the order of their entries: the values kept from a prefix of the lines are a prefix of all the values kept |
| `CsvParser.BlankCsv` | dashboard/src/App.tsx:10-24 | empty or all-white-space text parses to `[0]` |
| `CsvParser.AdjCloseNeedsComma` | dashboard/src/App.tsx:13-17 | with no comma on the first line, no header cell is `adj close` |
| `CsvParser.ReadDigits` | dashboard/src/App.tsx:24 | a run of decimal digits converts to its value |
| `CsvParser.DateCloseHeader` | dashboard/src/App.tsx:13-20 | the header `Date,Close` gives comma separation, data from line 1, and value column 1 |
| `CsvParser.DateCloseValues` | dashboard/src/App.tsx:10-27 | the file `Date,Close` / `2024-01-01,10` / `2024-01-02,11` parses to the prices `[10, 11]`: the dates in column 0 are never read |
| `PriceText.Tokens` | dashboard/src/App.tsx:61 | the text has at least one token |
| `PriceText.PricesOf` | dashboard/src/App.tsx:61 | the NaN filter keeps at most one price per token |
| `PriceText.ManualPrices` | dashboard/src/App.tsx:61 | never more prices than tokens |
| `PriceText.ManualPricesMembership` | dashboard/src/App.tsx:61 | a price is kept exactly when some token converts to it |
| `PriceText.TokensShape` | dashboard/src/App.tsx:61 | tokens hold no white space or comma, and only the first and the last can be empty |
| `PriceText.LeadingSeparatorGivesZero` | dashboard/src/App.tsx:61 | text starting with white space or a comma has 0 as its first price |
| `PriceText.TrailingSeparatorGivesZero` | dashboard/src/App.tsx:61 | text ending with white space or a comma has 0 as its last price |
| `PriceText.LetterIsNaN` | dashboard/src/App.tsx:61 | a token starting with a lower-case letter is NaN |
| `PriceText.WordIsNaN` | dashboard/src/App.tsx:61 | a single word starting with a lower-case letter gives no prices |
| `PriceText.ManualPricesJoin` | dashboard/src/App.tsx:108-111 | a non-empty list of prices joined with commas tokenises back to the same list |
| `PriceText.EmptyJoin` | dashboard/src/App.tsx:109-111 | the empty list joins to empty text, which tokenises to `[0]`, so the round trip needs a non-empty list |
| `PriceText.ManualPricesSettle` | dashboard/src/App.tsx:61 | tokenise, join and tokenise again gives the first result whenever that result is non-empty |
| `PriceText.ManualPricesUnsettled` | dashboard/src/App.tsx:61 | `"abc"` tokenises to no prices, but joining those and tokenising again gives `[0]` |
| `PriceText.OnCsvText` | dashboard/src/App.tsx:108-111 | the handler writes exactly when the parse is non-empty; the prices are the parse, the text is their comma join, and the text tokenises back to the prices |
| `Indicators.Series` | dashboard/src/App.tsx:30-50 | one entry per price |
| `Indicators.Indicator.constructor` | dashboard/src/App.tsx:35 | a fresh indicator of the chosen kind and period has seen no prices |
| `Indicators.Indicator.Update` | dashboard/src/App.tsx:36 | `update` feeds one more price to the indicator's state |
| `Indicators.ComputeSeries` | dashboard/src/App.tsx:30-50 | the loop with a fresh indicator returns exactly `Series` of kind, period and prices, so the result depends on nothing else; empty prices give an empty result |
| `Indicators.SeriesAt` | dashboard/src/App.tsx:35-36 | entry `i` is `undefined` exactly when the indicator is not stable after the first `i + 1` prices, and otherwise is its result then |
| `Indicators.SeriesPrefix` | dashboard/src/App.tsx:36 | the series of a prefix of the prices is the prefix of the series |
| `Indicators.StableAfter` | dashboard/src/App.tsx:36 | if updates keep a stable indicator stable, stability after some prices lasts through all later prices |
| `Indicators.WarmUpIsPrefix` | dashboard/src/App.tsx:36 | for such an indicator, every `undefined` entry comes before every result |
| `Indicators.Rows` | dashboard/src/App.tsx:71 | one row per price |
| `Indicators.RowsAlignment` | dashboard/src/App.tsx:71 | row `i` is numbered `i + 1` and shows price `i` next to the indicator value read right after that price |

## Left out

- Indicators.Library: `update` is total and `result` is never NaN. A library that throws on a price (such as an infinite one, which `Number("Infinity")` lets through both NaN filters) is not modelled. Neither is a NaN result, which the table would show as "NaN" rather than "—". `Observe` therefore never yields NaN.
- The SMA, EMA and RSI arithmetic of the trading-signals library is not modelled (`Indicators.Library` leaves it abstract). Its code is not part of this model, and it is floating-point arithmetic.
- Numbers are exact decimals. The model does not capture double-precision rounding, overflow of huge literals to Infinity, or negative zero.
- JsNumber.ToText always writes plain decimal notation. JavaScript switches to exponent notation at 1e21 and above and below 1e-6. The round trip `ToNumberToText` covers plain notation only.
- JsText.Lower folds only ASCII letters. This decides exactly whether a cell is `close`, `price` or `adj close`, but it is not full Unicode case mapping.
- Indicators.Indicator.GetResultOrThrow: the throw on an indicator that is not stable is a precondition. The dashboard calls it only after `isStable` is true.
- PriceText.OnCsvText: the asynchronous `FileReader` read and the check for a missing file are not modelled. The function starts from the file's text and returns what the handler writes into the two pieces of component state.
- React state, memoisation and effects are not modelled. That includes the effect that re-derives the prices whenever the text changes. `OnCsvText` states that this effect would leave uploaded prices unchanged.
- The sparkline canvas drawing, the table's `toFixed` formatting and the other JSX are not modelled.
- The period input's clamp `Math.max(1, parseInt(...))` (line 132) is not modelled. The period is passed through unchanged.
- `dashboard/src/services/marketDataService.ts` (network fetch, date sorting, random sample data) is not part of this model.
- `vite.config.ts` is build configuration and is not part of this model.
