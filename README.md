# Share cost basis and release-file naming, modelled in Dafny

This project models the computational core of a small set of scripts that
work out the UK capital-gains position of stock released to an employee and
later sold, plus the sanitiser that names the release-confirmation PDFs.

- **Pooled cost (`CostPool`, cost_pool.dfy).** `get_gains_and_holdings` walks a date-ordered table of
  "Buy" and "Sell" rows. It carries a single pool of units and pound cost, in the style of a Section 104 holding:
  - an acquisition adds its units, and their cost at the pound price, to the pool;
  - a disposal takes a pro-rata slice of the pool's cost as the allowable cost;
  - the gain of a disposal is its proceeds minus that allowable cost;
  - the whole pass fails when a sale takes more units than are held.

  The pass is a recursive specification function (`Replay`). The loop of the source is a method (`GetGainsAndHoldings`) proved equal to it. Lemmas cover the bookkeeping identities, the error cases and worked examples.
- **Exchange rates (`FxRates`, fx_rates.dfy).** `find_rate` is a first-match scan over inclusive date ranges of dollars-per-pound rates.
- **Sales columns (`SalesColumns`, sales_columns.dfy).** `_find_col` resolves the columns of a sales export by aliases. The exact pass is case-insensitive, over a dictionary in which the last column wins. The loose pass is a substring test. `load_sales` then runs its column check and builds its rows.
- **Timeline (`Timeline`, timeline.dfy).** `main` builds the event table:
  - release rows become "Buy" rows;
  - sale rows become "Sell" rows with nothing granted or issued;
  - every row gets the rate in force on its date;
  - the rows are ordered by date;
  - each row gets its price per share in pounds.
- **Date text (`DateText`, date_text.dfy).** The separator normalisation of `parse_date_ymd`.
- **File names (`ReleaseNames`, release_names.dfy).** `safe_part` and `build_target_name` of the renaming script.
- **Supporting modules.** `Text` (text.dfy) gives the pieces of Python's `str` behaviour that these steps use. `Wrappers` (wrappers.dfy) gives `Option` and `Result`.

Numbers are Dafny `real`s, so the arithmetic is exact. The unknown values pandas produces are modelled by the `Money` datatype:

- An exchange rate can be missing, which makes the pound price NaN.
- `Money.NaN` stands for that NaN.
- NaN propagates through sums, differences and products exactly as it does in the source.

Dates are day numbers.

A date with no covering exchange-rate range is not an error: `find_rate` returns `None` and the pound price becomes NaN (bin/calculate-cost-basis.py:52, 200).

The sanitiser collapses runs of `-` only; repeated underscores are kept (bin/rename-release-confirmations.py:41).

## Model

| member | source | states |
|---|---|---|
| CostPool.Step | bin/calculate-cost-basis.py:99-126 | one row: an acquisition always goes through; a sale fails exactly when the pool holds no units (division by zero) or when it leaves fewer than zero units (oversold at that row); on success the units change by the issued or sold count |
| CostPool.Replay | bin/calculate-cost-basis.py:92-129 | the pass over the rows from an empty pool, one `Step` per row, appending one gain and one pool cost per row; the first failing row ends it with that row's error |
| CostPool.GainsAndHoldings | bin/calculate-cost-basis.py:92-129 | the two lists of `Replay`, or its error; the lemmas below state its properties |
| CostPool.GetGainsAndHoldings | bin/calculate-cost-basis.py:92-129 | the loop over the rows returns exactly the two series of the row-by-row pass `GainsAndHoldings`, or the same error |
| CostPool.FailureIsFinal | bin/calculate-cost-basis.py:123-126 | once a prefix of the rows fails, the whole pass fails with that error: no partial series is returned |
| CostPool.SaleFromEmptyPool | bin/calculate-cost-basis.py:114 | a sale while the pool holds zero units fails with a division by zero |
| CostPool.DivisionByZeroIffEmptySale | bin/calculate-cost-basis.py:114 | the pass fails with a division by zero exactly when some row is a sale while the pool, after the successful rows before it, holds zero units |
| CostPool.OnlySalesStopThePass | bin/calculate-cost-basis.py:103-126 | the pass fails exactly when some row fails after a successful prefix, and that row is always a sale: an acquisition, priced or not, never stops it |
| CostPool.OversoldIffOversellsAt | bin/calculate-cost-basis.py:119-126 | the pass fails as oversold at row i exactly when the rows before i succeed, row i is a sale from a non-empty pool and it leaves fewer than zero units |
| CostPool.SeriesCoverEveryRow | bin/calculate-cost-basis.py:98-129 | on success both series have one entry per row |
| CostPool.SeriesAreRunningValues | bin/calculate-cost-basis.py:98-128 | on success the series of a prefix are the prefixes of the series, and holdings entry k-1 is the pool cost after row k-1 |
| CostPool.UnitsNeverNegative | bin/calculate-cost-basis.py:109-126 | when no acquisition has negative units, a successful pass ends with a non-negative unit count |
| CostPool.UnitsBalance | bin/calculate-cost-basis.py:103-120 | the units left are the units acquired minus the units disposed of |
| CostPool.NothingUnknown | bin/calculate-cost-basis.py:100-120 | when every pound price is known, the pool cost and every gain are known numbers |
| CostPool.PoolAccounting | bin/calculate-cost-basis.py:103-121 | with known prices, total gains plus total acquisition cost equal total disposal proceeds plus the cost left in the pool |
| CostPool.StepAccounting | bin/calculate-cost-basis.py:103-121 | one row changes the units by its issued or sold count and satisfies gain + paid = received + change in pool cost |
| CostPool.AcquisitionsOnly | bin/calculate-cost-basis.py:103-109 | rows that are all acquisitions with known prices never fail, pool every unit at its total cost and realise only zero gains |
| CostPool.BuysOnlyZeroGains | bin/calculate-cost-basis.py:101-109 | rows that are all acquisitions, at any price including NaN, never fail, realise one zero gain per row and pool every unit acquired |
| CostPool.AcquisitionAddsToPool | bin/calculate-cost-basis.py:103-109 | an acquisition adds issued units and issued × price to the pool and has gain 0 |
| CostPool.SaleChargesProRataCost | bin/calculate-cost-basis.py:114-120 | a sale removes sold units and a slice of cost in proportion sold/units, and its gain is proceeds minus that slice |
| CostPool.SaleKeepsAverageCost | bin/calculate-cost-basis.py:114-120 | a sale leaves the average cost per unit of what remains unchanged |
| CostPool.FullDisposalEmptiesPool | bin/calculate-cost-basis.py:119-120 | selling exactly the units held leaves zero units and zero cost, with gain proceeds minus the whole pool cost |
| CostPool.CostStaysUnknown | bin/calculate-cost-basis.py:100-106 | an acquisition at an unknown price leaves the pool cost unknown for good |
| CostPool.UnpricedAcquisitionPoisonsPool | bin/calculate-cost-basis.py:100-121 | from an acquisition at an unknown price on, every holdings entry is unknown |
| CostPool.TextbookPooling | bin/calculate-cost-basis.py:92-129 | 100 units at 10 and 50 at 12, then 60 sold at 15, give gains 0, 0, 260, holdings 1000, 1600, 960 and 90 units left |
| CostPool.OversellAbortsRun | bin/calculate-cost-basis.py:123-126 | selling 200 more units from that pool fails as oversold at row 3 with no series |
| FxRates.FindRate | bin/calculate-cost-basis.py:48-52 | `None` exactly when no range covers the day, both ends inclusive; otherwise the rate of the first covering range in table order |
| FxRates.UnambiguousLookup | bin/calculate-cost-basis.py:48-52 | on a table of disjoint ranges the lookup gives the rate of whichever range covers the day |
| SalesColumns.LowerIndex | bin/calculate-cost-basis.py:61 | the dictionary `{c.lower(): c for c in cols}`, built column by column so that a later column overwrites an earlier one |
| SalesColumns.LowerIndexKeys | bin/calculate-cost-basis.py:61 | the dictionary's keys are exactly the lower-cased column names, each mapped to a column with that lower-cased name |
| SalesColumns.LowerIndexKeepsLast | bin/calculate-cost-basis.py:61 | of several columns with one lower-cased name, the dictionary keeps the last |
| SalesColumns.ExactMatch | bin/calculate-cost-basis.py:62-64 | `None` exactly when no candidate is a key; otherwise the entry of the first candidate, in priority order, that is a key |
| SalesColumns.ExactMatchPicksCandidate | bin/calculate-cost-basis.py:62-64 | the exact pass returns the dictionary entry of one of the candidates |
| SalesColumns.LooseMatch | bin/calculate-cost-basis.py:66-70 | `None` exactly when no lower-cased column contains a candidate; otherwise the first such column in column order |
| SalesColumns.FindCol | bin/calculate-cost-basis.py:60-70 | the exact pass over the lower-cased dictionary, then the loose pass; the three lemmas below state its result |
| SalesColumns.FindColPrefersExact | bin/calculate-cost-basis.py:60-64 | when candidate p is the highest-priority exact (case-insensitive) name, the result is the last column spelled that way |
| SalesColumns.FindColFallsBackToLoose | bin/calculate-cost-basis.py:65-70 | with no exact match, the result is the first column whose lower-cased name contains a candidate |
| SalesColumns.FindColNoneIffNoMention | bin/calculate-cost-basis.py:60-70 | `None` exactly when no column mentions a candidate; any result is a column that mentions one |
| SalesColumns.ResolveSalesColumns | bin/calculate-cost-basis.py:75-83 | failure carries the list of columns found; success carries the three resolved columns |
| SalesColumns.FoundColumnIsNamed | bin/calculate-cost-basis.py:78 | for non-empty aliases, the `not col` test rejects a result exactly when no column mentions an alias |
| SalesColumns.SchemaErrorIffFieldUnmentioned | bin/calculate-cost-basis.py:75-83 | loading fails exactly when one of date, shares or price has no column mentioning any of its aliases |
| SalesColumns.NoDateOrPriceColumn | bin/calculate-cost-basis.py:56-83 | an export with no column mentioning "date", or none mentioning "price", is rejected with its columns listed |
| SalesColumns.ColumnIndex | bin/calculate-cost-basis.py:85-87 | the position of the first column with the given name, or the column count when there is none |
| SalesColumns.LoadSales | bin/calculate-cost-basis.py:72-89 | fails exactly when the column check fails, listing the columns; otherwise one row per input row, whose date, shares and price are that row's cells in the columns `_find_col` resolved, with every '/' of the date replaced by '-' |
| Timeline.StampRelease | bin/calculate-cost-basis.py:174-177 | a release row becomes a "Buy" row carrying the rate `find_rate` gives for its date |
| Timeline.StampSale | bin/calculate-cost-basis.py:182-189 | a sale row becomes a "Sell" row with nothing granted or issued, carrying the rate for its date |
| Timeline.Combined | bin/calculate-cost-basis.py:192-195 | the release rows followed by the sale rows, when there are sales |
| Timeline.PriceAll | bin/calculate-cost-basis.py:200 | every row gets its pound price from its dollar price and rate |
| Timeline.BuildTimeline | bin/calculate-cost-basis.py:174-200 | combine, sort by date, then price; `TimelineIsOrderedPermutation` and `TimelineRows` state what it yields |
| Timeline.MergeAsWritten | bin/calculate-cost-basis.py:180-195 | the merge as the code is written: no path merges releases only, an empty path fails with the sales frame unbound, any other path merges the loaded sales |
| Timeline.CostBasis | bin/calculate-cost-basis.py:174-201 | the whole computation of `main`: the corrected merge, the timeline, then the pass over it |
| Timeline.GbpPrice | bin/calculate-cost-basis.py:200 | the pound price is unknown exactly when the rate is missing or zero; otherwise price × rate = dollar price |
| Timeline.Insert | bin/calculate-cost-basis.py:196 | inserting into a date-ordered list gives a date-ordered list holding one more copy of the row |
| Timeline.SortByDate | bin/calculate-cost-basis.py:196 | the result is ordered by date and is a permutation of the rows |
| Timeline.PricePreservesPermutation | bin/calculate-cost-basis.py:200 | pricing row by row maps permutations to permutations |
| Timeline.TimelineIsOrderedPermutation | bin/calculate-cost-basis.py:195-200 | the event table is date-ordered, is a permutation of the priced release and sale rows, and has one row per release and per sale |
| Timeline.TimelineRows | bin/calculate-cost-basis.py:184-200 | every event carries the rate of its date and the pound price from that rate; it is the priced release or sale it came from; sales have nothing granted or issued |
| Timeline.ReleasesOnlyRealiseNothing | bin/calculate-cost-basis.py:174-201 | with no sales the pass succeeds with one gain per release, every one zero, whatever the rates (a missing or zero rate included) |
| Timeline.EmptySalesPathFails | bin/calculate-cost-basis.py:180-195 | an empty `--sales` path makes the merge fail, the sales frame never having been bound |
| Timeline.SalesToMerge | bin/calculate-cost-basis.py:181 | sales take part exactly when a non-empty path was given, and they are the loaded rows |
| Timeline.MergeAgreesWhereDefined | bin/calculate-cost-basis.py:180-195 | the corrected merge treats an empty path like no path, and equals the merge as written wherever that succeeds, which is everywhere but the empty path |
| DateText.NormalizeYmd | bin/calculate-cost-basis.py:38 | `str(s).strip().replace("/", "-")` |
| DateText.NormalizedShape | bin/calculate-cost-basis.py:38 | the normalised date text has no '/' and no surrounding whitespace, and is the stripped text with each '/' replaced by '-' and every other character kept |
| DateText.NormalizeIdempotent | bin/calculate-cost-basis.py:38 | normalising twice equals normalising once |
| DateText.ColumnReplaceIsRedundant | bin/calculate-cost-basis.py:85 | replacing '/' while loading a column does not change what the date parser receives |
| Text.Strip | bin/calculate-cost-basis.py:38 | `strip()` with no argument: `Trim` dropping Python's whitespace characters |
| Text.Contains | bin/calculate-cost-basis.py:68 | Python's `needle in hay` on strings |
| Text.Trim | bin/rename-release-confirmations.py:41 | `strip(chars)` keeps no droppable edge character, is empty exactly when every character is droppable, and leaves text without droppable ends unchanged |
| Text.TrimIsSlice | bin/rename-release-confirmations.py:41 | what `strip` keeps is one contiguous piece with only droppable characters around it |
| Text.Lower | bin/calculate-cost-basis.py:61 | `lower()` maps each character to its lower case and keeps the length |
| Text.ReplaceChar | bin/rename-release-confirmations.py:39 | `replace` of one character changes exactly the occurrences of that character |
| Text.ContainsTransitive | bin/calculate-cost-basis.py:68 | a substring of a substring is a substring |
| ReleaseNames.ReplaceUnsafeRuns | bin/rename-release-confirmations.py:40 | after the substitution only characters from `[A-Za-z0-9._-]` remain, and only empty input gives empty output |
| ReleaseNames.SafeRunsUnchanged | bin/rename-release-confirmations.py:40 | text made only of safe characters is not changed by the substitution |
| ReleaseNames.ReplaceUnsafeRunsStep | bin/rename-release-confirmations.py:40 | safe text is copied and the maximal run of unsafe characters after it becomes one '-' |
| ReleaseNames.CollapseDashes | bin/rename-release-confirmations.py:41 | the result has no two consecutive '-', keeps safe text safe, and starts with '-' exactly when the input does |
| ReleaseNames.SingleDashesUnchanged | bin/rename-release-confirmations.py:41 | text without "--" is not changed by the dash collapse |
| ReleaseNames.CollapseDashesStep | bin/rename-release-confirmations.py:41 | text without "--" is copied and a run of one or more '-' after it becomes one '-' |
| ReleaseNames.Sanitize | bin/rename-release-confirmations.py:39-41 | the separator replacements, the unsafe-run substitution, the dash collapse and `strip("-._")`, in that order |
| ReleaseNames.SafePart | bin/rename-release-confirmations.py:27-42 | `None` or blank input gives the fallback; any other result is a safe token with allowed characters only, no "--" and no '-', '.' or '_' at either end; with a non-empty fallback, never empty |
| ReleaseNames.SanitizeIsSafe | bin/rename-release-confirmations.py:39-41 | the rewrite chain yields either nothing or a safe token |
| ReleaseNames.NoPathSeparators | bin/rename-release-confirmations.py:39-41 | a result other than the fallback contains no '/' or '\' and is neither "." nor ".." |
| ReleaseNames.SafeTokenIsFixedPoint | bin/rename-release-confirmations.py:27-42 | a safe token is returned unchanged |
| ReleaseNames.SafePartIdempotent | bin/rename-release-confirmations.py:27-42 | with a safe fallback, sanitising a sanitised field changes nothing |
| ReleaseNames.SafePartKeepsAlnums | bin/rename-release-confirmations.py:36-42 | a field holding at least one ASCII letter or digit never falls back: its result holds exactly the field's letters and digits, in order |
| ReleaseNames.SafePartNoAlnumFallsBack | bin/rename-release-confirmations.py:36-42 | a field with no ASCII letter or digit always gives the fallback; with `SafePartKeepsAlnums`, the fallback is returned exactly when the field has none |
| ReleaseNames.SafePartJoinsTokens | bin/rename-release-confirmations.py:36-42 | two safe tokens separated by any run of unsafe characters (spaces, '/', '\', punctuation) come out joined by exactly one '-' |
| ReleaseNames.Get | bin/rename-release-confirmations.py:46-48 | `meta.get(key)`: the field, or `None` when the key is missing |
| ReleaseNames.TextOrEmpty | bin/rename-release-confirmations.py:47 | `str(x or "")` for a text field: the text, or "" for `None` |
| ReleaseNames.FallbacksAreSafe | bin/rename-release-confirmations.py:46-48 | the three fixed fallbacks are themselves safe tokens |
| ReleaseNames.BuildTargetName | bin/rename-release-confirmations.py:44-49 | the name ends in ".pdf", uses only characters from `[A-Za-z0-9._-]` and does not start with '-', '.' or '_' |
| ReleaseNames.TargetNameKeepsFieldText | bin/rename-release-confirmations.py:44-49 | when each of the three fields holds a letter or digit, the name holds exactly the letters and digits of award date, award number and release date, in that order, then "pdf" |
| ReleaseNames.AlnumsOfJoined | bin/rename-release-confirmations.py:49 | the joining '-' and ".pdf" add no letters or digits other than "pdf" |
| ReleaseNames.NameOfWellFormedFields | bin/rename-release-confirmations.py:44-49 | well-formed date and number fields come through unchanged, joined by '-' with ".pdf" |
| ReleaseNames.NameOfEmptyMetadata | bin/rename-release-confirmations.py:44-49 | missing fields, and a missing, `None` or empty award number, give the three fixed fallbacks |

## Findings

| source | as written | input that shows it | evidently intended | confidence | as-written member | corrected member |
|---|---|---|---|---|---|---|
| bin/calculate-cost-basis.py:181-195 | sales are loaded under `if sales:` but merged under `sales is None`, so an empty path skips the loading and still reaches `pd.concat([rel, s])` with `s` unbound | `--sales ""` | an empty path is treated like no sales file | high, not executed | Timeline.EmptySalesPathFails | Timeline.MergeAgreesWhereDefined |

`Timeline.MergeAsWritten` models the merge as written. `Timeline.SalesToMerge` applies the single test `if sales:`, and `Timeline.CostBasis` uses it.

## Left out

- Reading and writing CSV files, argument parsing and `print_events` are not modelled. This includes its four-decimal formatting. The model starts from tables already read.
- IEEE floating point: the arithmetic is over exact reals, so no rounding, overflow or infinities occur.
- Timeline.GbpPrice: a zero rate gives an unknown price (NaN), where pandas would give an infinite price (or NaN for a zero dollar price); infinities are not modelled.
- CostPool.Step: unit counts are always known numbers. A NaN `Sold` or `Issued` cell, which the source would carry through `float(x or 0.0)`, is not modelled.
- CostPool.Step: the Python `None`/`0.0` defaulting of `float(row[...] or 0.0)` is not modelled. The model takes the cells as numbers, so only NaN versus a number is distinguished.
- DateText: `datetime.strptime` calendar validation is not modelled, and dates reach the model as day numbers. `parse_date_dmy` for the exchange-rate table is also left out.
- The `astype(float)` conversions in `load_sales` are not modelled. `LoadSales` returns the cells as text.
- SalesColumns.LoadSales: with duplicate column names pandas selects several columns. The model takes the first column with the resolved name.
- Text.Lower: only ASCII letters are lower-cased. Python's full Unicode case mapping is not modelled.
- The release-file column checks of `main` (bin/calculate-cost-basis.py:151-163) are not modelled. These are the choice of the `Date` or `Release Date` column and the required-column errors; the model starts from release rows already resolved.
- Timeline.SortByDate: pandas' sort is not stable. The model sorts by insertion, but its contracts promise only some date-ordered permutation, so the order among rows of the same date is left unspecified.
- ReleaseNames.TextOrEmpty: the award number is taken to be text or `None`. `str()` of a non-text value, such as a number, is not modelled.
- `unique_path` and `rename_file` query and change the file system, so they are not modelled.
- bin/parse_pdf.py, bin/parse-stock-releases.py and bin/combine.py are not part of this model. They extract PDF layout text and glue files together.
