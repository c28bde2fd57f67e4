# Café POS export analyzers: a Dafny model

The repository has three scripts. Each one reads the monthly sales export of a café's till: a
semicolon-separated file in which item rows are mixed with metadata lines, category subtotals,
payment-tender rows and grand totals.

- **Table report** (`src/analyzer.py`):
  - finds the real table header under the metadata lines;
  - reads the `Anzahl` (quantity) and `Total` (revenue) columns in German number format;
  - drops rows that lack either number or have a total of zero or less;
  - prints the row count, both sums and the five best sellers with their revenue share.
- **Product report** (`src/analyzer2.py`):
  - filters row by row: field count, blank name, keyword exclusion, `int` quantity, `float` revenue, a 15000 ceiling;
  - keeps running totals;
  - ranks the five best sellers by a stable descending sort and prints their revenue share.
- **Chart report** (`src/analyzer3.py`):
  - has the same row filter, with a shorter keyword list and no quantity;
  - takes the ten best sellers;
  - hands their names and revenues, as two parallel lists, to the bar-chart call.

The model is a set of pure functions over lines and pre-split rows (`seq<string>`), with lemmas
about them. Revenue is an exact `real` number in all three reports. Quantity is an `int` in the
product report, as Python's `int()` gives it, and an exact `real` in the table report, as
`pd.to_numeric` gives it. The chart report reads no quantity.

| file | module | contents |
|---|---|---|
| `wrappers.dfy` | `Wrappers` | `Option`, `Result` |
| `text.dfy` | `Text` | ASCII lower-casing, substring test, `strip`, `split`, character delete/replace |
| `numbers.dfy` | `Numbers` | `int()` and `float()` on plain decimal text, the German-format normaliser, rendering of integers |
| `exclusion.dfy` | `Exclusion` | the two keyword lists and the substring classifier |
| `extraction.dfy` | `Extraction` | reject reasons, the 4-field and 15000 limits, and the generic "keep the accepted rows" loop |
| `ranking.dfy` | `Ranking` | sums, stable descending insertion sort, top-N, shares |
| `header.dfy` | `Header` | the header locator |
| `table_report.dfy` | `TableReport` | `analyzer.py` |
| `product_report.dfy` | `ProductReport` | `analyzer2.py` |
| `chart_report.dfy` | `ChartReport` | `analyzer3.py` |

The three scripts read the same export, but they do not read it alike, and the model keeps each
script's own behaviour:

- Only the table report uses the German normaliser (`src/analyzer.py:45-50`, whose comment gives
  `1.234,56 -> 1234.56`). The product and chart reports read revenue with plain `float()`. So a
  revenue written `4,50` rejects its row there (`ProductReport.GermanRevenueRejected`), although the
  table report reads the same cell as 4.5.
- The product and chart reports rank with Python's `sorted(..., reverse=True)`, which is stable: equal
  revenues stay in file order. The table report ranks with pandas' `sort_values` at its default
  algorithm, which is not stable, so no tie order is claimed for it. Internally its model ranks with
  the same stable sort as the others, but its contracts state only what any descending order
  guarantees.

## Model

| member | source | states |
|---|---|---|
| Text.Lower | src/analyzer.py:22 | `lower()` keeps the length and lower-cases each ASCII letter in place, leaving every other character as it is |
| Text.ContainsSpec | src/analyzer.py:22-23 | the `in` substring test holds exactly when the fragment occurs at some position of the text |
| Text.StripSpec | src/analyzer2.py:34-36 | `strip()` yields a contiguous slice of the field with only whitespace cut from both ends, no whitespace at either end, and is empty exactly when the field is all whitespace |
| Text.SplitJoin | src/analyzer.py:39 | splitting a line on `;` loses nothing: joining the pieces with `;` gives the line back, and no piece contains `;` |
| Text.StripPadded | src/analyzer.py:50 | whitespace padding on either side of a text strips to the same result as the bare text |
| Text.DeleteSpec | src/analyzer.py:49 | removing every `.` leaves no `.`, shortens the text by the number of dots, keeps every other character's count, and leaves a text without dots as it is |
| Text.DeleteAppend | src/analyzer.py:49 | removing dots from a concatenation concatenates the two results, and a single character disappears exactly when it is the dot, so the remaining characters keep their order |
| Text.ReplaceSpec | src/analyzer.py:49 | turning every `,` into `.` keeps the length and every position: each comma becomes a dot in place and every other character stays |
| Text.ReplaceAppend | src/analyzer.py:49 | replacing in a concatenation concatenates the two replacements |
| Numbers.NormalizeGerman | src/analyzer.py:49 | the normalised cell has no comma, one dot per comma of the input, and is shorter by the number of input dots |
| Numbers.NormalizeGermanByChar | src/analyzer.py:49 | the normaliser maps a concatenation to the concatenated results, drops a `.`, turns a `,` into `.` and keeps every other character, which fixes its result on every text |
| Numbers.NormalizeGermanPlain | src/analyzer.py:49 | a cell without dots and commas passes the normaliser unchanged |
| Numbers.GermanAmount | src/analyzer.py:49 | the normaliser turns `d1.d2,d3` of digit groups into `d1d2.d3`, which `float()` parses as the integer d1d2 plus d3 divided by 10 to the power of the length of d3 (for a whole cell see TableReport.CellGermanAmount) |
| Numbers.GermanComma | src/analyzer.py:49 | the normaliser turns `d1,d3` of digit groups into `d1.d3`, which `float()` parses as d1 plus d3 divided by 10 to the power of the length of d3 |
| Numbers.GermanGrouped | src/analyzer.py:49 | the normaliser deletes the dot of `d1.d2` as a thousands separator, and `float()` parses the result as the integer d1d2 |
| Numbers.GermanThousands | src/analyzer.py:49 | the normaliser turns `1.234,56` into text that `float()` parses as 1234.56 |
| Numbers.GermanCents | src/analyzer.py:49 | the normaliser turns `0,50` into text that `float()` parses as 0.5 |
| Numbers.DotDecimalReadAsHundreds | src/analyzer.py:49 | the normaliser deletes the point of a dot-decimal text such as `4.50`, which `float()` then parses as 450 |
| Numbers.ParseDecimal | src/analyzer2.py:47 | a `float()` reading needs non-empty text, and a negative reading needs a leading minus |
| Numbers.ParseDecimalAccepts | src/analyzer2.py:47 | `float()` succeeds exactly on an optional sign followed by a non-empty digit string or by digit strings around one point with at least one digit in all, so `1.2.3`, `abc`, `-` and `.` are rejected |
| Numbers.ParseDecimalSigned | src/analyzer2.py:47 | a leading `-` negates the reading of the unsigned text after it and a leading `+` keeps it, so with ParseDecimalPoint `-4.50` reads as -4.5 and `+3.5` as 3.5; a second sign is rejected |
| Numbers.ParseInt | src/analyzer2.py:46 | `int()` succeeds exactly on an optional sign followed by at least one digit |
| Numbers.ParseDecimalDigits | src/analyzer2.py:47 | `float()` of a non-empty digit string is its integer value |
| Numbers.ParseIntShowInt | src/analyzer2.py:46 | `int()` reads back every rendered integer as that integer |
| Numbers.ParseDecimalShowInt | src/analyzer2.py:47 | `float()` reads back every rendered integer as that integer |
| Numbers.ParseDecimalPoint | src/analyzer2.py:47 | `float()` of `w.f` for digit strings w, f is w plus f divided by 10 to the power of the length of f |
| Numbers.CommaNeverParses | src/analyzer2.py:47 | `float()` rejects any text containing a comma |
| Exclusion.IsExcluded | src/analyzer3.py:24 | a name is excluded exactly when some keyword occurs in its lower-cased form |
| Exclusion.AnyKeyEqualsOrOccurs | src/analyzer2.py:41-44 | the product report's test holds exactly when some keyword equals the lower-cased name or occurs in it |
| Exclusion.EqualityDisjunctSubsumed | src/analyzer2.py:41-44 | the product report's `key == name or key in name` test equals plain substring membership |
| Exclusion.ExclusionOrderIrrelevant | src/analyzer2.py:43 | two keyword lists with the same members classify every name alike |
| Exclusion.ChartAcceptsProductLabels | src/analyzer3.py:15 | every chart keyword is a product keyword, so a name the product report accepts is accepted by the chart report |
| Exclusion.CashPaymentExcluded | src/analyzer2.py:17-23 | `BARZAHLUNG` is excluded by both lists, through the keyword `bar` |
| Extraction.AcceptedAppend | src/analyzer2.py:29-62 | the rows kept from two consecutive stretches of the file are the rows kept from each, in order |
| Extraction.RejectedRowSkipped | src/analyzer2.py:61-62 | a rejected row changes nothing: the loop continues as if the row were absent |
| Extraction.AcceptedMembers | src/analyzer2.py:29-60 | no more records than rows, and a record is kept exactly when some row extracts to it |
| Ranking.SortDesc | src/analyzer2.py:69 | the sorted list is a permutation of the records, non-increasing by revenue |
| Ranking.SortDescStable | src/analyzer2.py:69 | records with equal revenue keep their file order |
| Ranking.SortDescSum | src/analyzer2.py:69 | sorting keeps the revenue sum |
| Ranking.TopNSelects | src/analyzer2.py:79 | the top list is a sub-multiset of the records, pairwise non-increasing, and no record left out has more revenue than a listed one |
| Ranking.TopNTiesInFileOrder | src/analyzer2.py:69-79 | among records of equal revenue, the listed ones are the first few in file order |
| Ranking.Rank | src/analyzer2.py:79-80 | each report line keeps its record's name and revenue, with share = revenue / total * 100, so share * total = 100 * revenue |
| Ranking.SumSharesIsShareOfSum | src/analyzer2.py:80 | the listed shares add up to the share of the listed revenues' sum |
| Ranking.SumPositive | src/analyzer.py:55 | with positive revenues, the sum is positive for a non-empty list and at least each single revenue |
| Ranking.TopSharesBounded | src/analyzer.py:73 | with positive revenues, each top share lies in (0, 100] and the top shares add up to at most 100 |
| Header.FindHeader | src/analyzer.py:16-28 | the result is -1 exactly when no line holds `plu`, `anzahl` and `total` case-insensitively; otherwise it is the least such index |
| Header.LocateHeader | src/analyzer.py:19-25 | the scanning loop with early exit finds the least header index, or -1 when there is none |
| Header.PreambleShiftsHeader | src/analyzer.py:19-25 | metadata lines without the markers in front of the table shift the header index by their number |
| TableReport.ColumnIndex | src/analyzer.py:46-47 | the column lookup finds nothing exactly when the name is absent, else the first exact match |
| TableReport.FindLayout | src/analyzer.py:46-69 | a layout exists exactly when both `Anzahl` and `Total` are columns; the label column is `Warengruppe` when present, else the first column |
| TableReport.Number | src/analyzer.py:49-50 | an empty cell is missing, and a cell that reads as a number is not all blanks |
| TableReport.CellGermanAmount | src/analyzer.py:49-50 | a cell `d1.d2,d3` of digit groups reads as the integer d1d2 plus d3 divided by 10 to the power of the length of d3 |
| TableReport.CellGermanComma | src/analyzer.py:49-50 | a cell `d1,d3` of digit groups reads as d1 plus d3 divided by 10 to the power of the length of d3 |
| TableReport.CellGermanGrouped | src/analyzer.py:49-50 | a cell `d1.d2` of digit groups reads as the integer d1d2, the dot taken for a thousands separator |
| TableReport.CellThousands | src/analyzer.py:49-50 | the cell `1.234,56` reads as 1234.56 |
| TableReport.PaddedCellRead | src/analyzer.py:49-50 | blanks around a numeric cell are ignored, as `pd.to_numeric` ignores them: a padded cell reads as the bare one |
| TableReport.ExtractRow | src/analyzer.py:45-55 | a surviving row has a positive total read from its `Total` cell and a non-empty label; the full condition is ExtractRowSpec |
| TableReport.ExtractRowSpec | src/analyzer.py:45-55 | a row survives exactly when both cells read as numbers and the total is positive; the sale carries those numbers and the label |
| TableReport.SalesPositive | src/analyzer.py:55 | every surviving row has Total > 0 |
| TableReport.MissingDropsRow | src/analyzer.py:50-53 | a cell that is not a number removes its row, and only that row |
| TableReport.Analyze | src/analyzer.py:16-74 | a printed table lists min(5, n) rows for its n surviving rows, with fewer rows than the file has lines, and its revenue sum is positive exactly when some row survives; the outcomes are stated by NoHeaderNoTable, MissingColumnSpec and TableFromRowsBelowHeader |
| TableReport.NoHeaderNoTable | src/analyzer.py:26-28 | the run stops without a table exactly when no line is a header |
| TableReport.MissingColumnSpec | src/analyzer.py:46-53 | the run fails on a missing column exactly when the header lacks `Anzahl` or `Total` |
| TableReport.TableFromRowsBelowHeader | src/analyzer.py:16-55 | with a header and both columns, the table is built from the surviving rows below the header |
| TableReport.SummaryShares | src/analyzer.py:61-73 | row count, quantity sum and revenue sum are over the surviving rows; min(5, n) lines; each share is total / sum * 100, in (0, 100]; the shares add up to at most 100 |
| TableReport.SummarySelects | src/analyzer.py:71 | the top lines show rows drawn from the surviving rows, non-increasing by total, with no left-out row beating a listed one; no tie order |
| TableReport.FloatCountReadTenfold | src/analyzer.py:49-50 | as written, a count n rendered by pandas as the float text `n.0` is read as 10 * n |
| TableReport.IntegerCellReadBack | src/analyzer.py:49-50 | a count exported as plain digits is read back as that count |
| ProductReport.Extract | src/analyzer2.py:29-62 | a kept row has at least 4 fields, a non-blank name, a revenue of at most 15000 and the `int()` of its quantity field as quantity; the full condition is ExtractSpec |
| ProductReport.ExtractSpec | src/analyzer2.py:29-62 | a row is kept exactly when it has at least 4 fields, a non-blank stripped name free of keywords, an `int` quantity and a `float` revenue of at most 15000; too few fields and a blank name give their own reasons; more than 15000 is rejected |
| ProductReport.GermanRevenueRejected | src/analyzer2.py:47 | a revenue field containing a comma always rejects its row |
| ProductReport.Collect | src/analyzer2.py:29-60 | after the loop, `total_revenue` and `total_quantity` are the sums over exactly the kept items, in file order |
| ProductReport.QuantityTotalAppend | src/analyzer2.py:54 | the quantity sum of two lists is the sum of their quantity sums |
| ProductReport.Summarize | src/analyzer2.py:64-80 | the report says "no valid items" exactly when nothing was kept, divides by zero exactly when items were kept but their revenues add up to zero, and prints the ranking exactly when items were kept with a non-zero revenue sum; a summary has min(5, n) lines |
| ProductReport.Run | src/analyzer2.py:25-80 | on a file, the ranking is printed exactly when some row is kept and the kept revenues add up to non-zero, the division by zero happens exactly when rows are kept with a zero sum, and a summary lists at most 5 lines and no more lines than the file has rows |
| ProductReport.NoItemsGuard | src/analyzer2.py:64-66 | the run ends with "no valid items" exactly when every row is rejected |
| ProductReport.SummaryRanksTopFive | src/analyzer2.py:69-80 | a summary has the two totals, min(5, n) lines equal in name and revenue to the head of the stable descending ranking, non-increasing, each share = revenue / total * 100 |
| ProductReport.ZeroRevenueAborts | src/analyzer2.py:64-80 | as written, a file whose only kept row has revenue 0 ends with a division by zero at the first share |
| ProductReport.ZeroRevenueRowKept | src/analyzer2.py:29-60 | the row `Tee;X;1;0` passes every test of the filter |
| ProductReport.AcceptedPositive | src/analyzer2.py:50-51 | with the added lower bound, every kept item has positive revenue |
| ProductReport.RunPositiveSharesBounded | src/analyzer2.py:64-80 | with the added lower bound, the run never divides by zero, each share is in (0, 100] and the shares add up to at most 100 |
| ChartReport.Extract | src/analyzer3.py:20-30 | a charted row has at least 4 fields, a non-blank name and the `float()` of its revenue field, at most 15000, as length |
| ChartReport.ExtractSpec | src/analyzer3.py:20-30 | a row is kept exactly when it has at least 4 fields, a non-blank name free of the nine keywords and a `float` revenue of at most 15000 |
| ChartReport.OnlyNameAndRevenueMatter | src/analyzer3.py:22-29 | two rows of at least 4 fields that agree on fields 0 and 3 get the same verdict |
| ChartReport.ProductRowCharted | src/analyzer3.py:20-30 | every row the product report keeps is charted with the same name and revenue |
| ChartReport.ChartIgnoresQuantity | src/analyzer3.py:20-30 | a row without an integer quantity is dropped by the product report but is charted whenever name and revenue pass |
| ChartReport.Series | src/analyzer3.py:36-37 | the name list and the revenue list both have the length of the top list |
| ChartReport.SeriesBars | src/analyzer3.py:36-37 | the two lists pair back up into exactly the top entries, and the pairing splits back into the two lists |
| ChartReport.EntriesBounded | src/analyzer3.py:20-30 | every kept entry has a non-blank name and a revenue of at most 15000 |
| ChartReport.Top10 | src/analyzer3.py:33 | `top_10` has min(10, n) entries, drawn with multiplicity from the n kept entries, each non-blank and at most 15000 |
| ChartReport.Chart | src/analyzer3.py:33-37 | the two lists have equal length of at most 10, every label non-blank and every length at most 15000 |
| ChartReport.ChartShowsTopTen | src/analyzer3.py:33-37 | min(10, n) bars, non-increasing, drawn with multiplicity from the kept entries, and no kept entry left off beats a bar |
| ChartReport.ChartTiesInFileOrder | src/analyzer3.py:33 | among bars of equal revenue, the charted ones are the first kept entries of that revenue |
| ChartReport.BarFromRow | src/analyzer3.py:20-37 | every bar comes from a kept row of the file, with a non-blank label and a length of at most 15000 |

## Left out

- File I/O is not modelled. Lines and rows are the input. This covers path construction, the existence check, `open`, `readlines` and BOM-aware decoding.
- Parsing by pandas `read_csv` and `csv.reader` is not modelled:
  - the discarded `nrows=90` read;
  - quoting and escaped separators;
  - skipping of blank lines;
  - renaming of duplicate column names;
  - the error on rows with more fields than the header.
  The product and chart reports take rows already split into fields. The table report splits lines on `;` and reads a short row's absent cells as missing.
- Line terminators are not modelled. Lines are taken without their newline.
- pandas dtype inference is not modelled. Table cells reach the normaliser as their exported text. The as-written effect on float columns is shown only by `TableReport.FloatCountReadTenfold`.
- Other missing-value spellings (`NA`, `null`, `n/a`, …) are left out. Only an empty or absent cell is missing.
- When the label column is itself `Anzahl` or `Total`, the printed label would be the converted number. The model prints the raw cell.
- `float()` and `pd.to_numeric` accept only plain decimal text: an optional sign, digits, and an optional point with more digits. `int()` accepts an optional sign and digits. Exponents, `inf`/`nan` and digit-group underscores are left out.
- TableReport.Number: it strips the separator controls U+001C to U+001F around a cell as well, which `pd.to_numeric` does not; it strips the ASCII blanks as `pd.to_numeric` does.
- IEEE floating point is not modelled. All arithmetic and comparisons are exact.
- Unicode case mapping and whitespace are not modelled. `lower()` maps ASCII letters only, so an upper-case umlaut or capital `ẞ` stays as it is. A label `GETRÄNKE` therefore escapes the `getränke` keyword, and `MILCH HEIẞ` escapes `milch heiß`, although Python's `lower()` would exclude both. `strip()` removes the ASCII whitespace and separator controls.
- Printing, number formatting, matplotlib rendering and saving the chart are not modelled.
- The top-level `except Exception` handlers are not modelled. A failure that ends a run is an outcome (`MissingColumn`, `ShareDivisionByZero`), not an exception.
- TableReport.SummarySelects: it claims no order among equal totals, because pandas' default sort is not stable.

## Findings

| source | as written | input that shows it | evidently intended | confidence | as-written member | corrected member |
|---|---|---|---|---|---|---|
| src/analyzer2.py:47-80 | revenue has no lower bound, and only an empty item list is guarded, so the share divides by a total of zero | the single data row `Tee;X;1;0` | only positive revenues are summed and shared, as the table report's `Total > 0` filter does | not executed | ProductReport.ZeroRevenueAborts | ProductReport.RunPositiveSharesBounded |
| src/analyzer.py:49-50 | the normaliser runs on `astype(str)` of the column, and a column read as floats renders a count n as `n.0`, whose point is then deleted | an `Anzahl` column of plain counts with one empty footer cell, such as `5` rendered as `5.0` | the exported text of the count is normalised, so `5` reads as 5 | not executed | TableReport.FloatCountReadTenfold | TableReport.IntegerCellReadBack |
