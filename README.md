# Price-list normaliser: a verified model

This project models the core of a price-list normaliser written in Python. The normaliser
reads supplier price lists (spreadsheets and PDF tables) and keeps a description and a
price for each product. It then groups similar products across suppliers and reports the
cheapest supplier of each group. The model covers the following parts:

- `app.py`:
  - `extract_price`: reads a price out of free text, and decides whether `.` or `,` is
    the decimal point;
  - `normalize_text`: lower-cases, removes accents, cleans and collapses spaces;
  - `extract_code`: the first `\b[A-Z0-9]{3,15}\b` word;
  - `classify_category`: the keyword table;
  - the column detection and the row filter of `process_excel_optimized`;
  - `compare_products`: first the greedy grouping of similar products, then the
    per-group summary with its winner, its loser and the counters.
- `pdf.py`: `clean_number`, which removes spaces and the dots that separate thousands.
- `aa.py`: the fill loop of `unmerge_excel`. Every merged range is replaced by cells
  that all hold the value of its top-left cell.

Modules and files:

| file | module | source |
|---|---|---|
| `strings.dfy` | `Strings` | helpers: character classes, counting, searching, stripping |
| `price_text.dfy` | `PriceText` | `extract_price` and `float()` |
| `price_formats.dfy` | `PriceFormats` | results of `extract_price` on the formats it is written for |
| `text_rules.dfy` | `TextRules` | `normalize_text`, `extract_code`, `classify_category` |
| `sheet_extraction.dfy` | `SheetExtraction` | `process_excel_optimized` |
| `comparison.dfy` | `Comparison` | `compare_products` |
| `pdf_numbers.dfy` | `PdfNumbers` | `clean_number` |
| `unmerge.dfy` | `Unmerge` | `unmerge_excel` |

Pure functions become Dafny functions, and lemmas state what they mean. Code that loops
and updates state becomes methods with loop invariants:

- the header scan;
- the row loop;
- both loops of the grouping;
- the summary loop;
- the nested fill loops.

The fill loops change a worksheet, modelled as an `array2`, in place. Each method is
proved against a specification function, and the specification's properties are proved
as lemmas.

A few behaviours of the code that a reader might not expect are stated as proved
properties:

- A dot that `extract_price` would read as a decimal point is removed by the sheet
  reader. So "12.50" in a sheet cell becomes 1250 (`RowPriceDropsDecimalDot`).
- `clean_number` judges every dot on the space-free input. So "1.234.5" becomes
  "1234.5" (`GroupedDigits` with a tail ".5").
- The sheet reader also drops the dot of a number that `str()` renders in exponent form.
  So "1.5e+16" is read as 1.5e17 (`RowPriceExponent`).
- The loser of a group is the first product that is not *equal* to the winner, compared
  field by field. A copy of the winner is never the loser (`EntryMeaning`).

## Model

| member | source | states |
|---|---|---|
| PriceText.ExtractPrice | app.py:52-76 | a price is returned only inside [0.01, 10000000], both ends inclusive; the empty text gives none |
| PriceText.ExtractPriceIsReferencePrice | app.py:55-73 | `extract_price` equals an independent definition: the digits of the cleaned text, scaled by the digits after the decimal point that the separator rules choose; none without a digit, with a repeated decimal point, or out of range |
| PriceText.LaterSeparatorIsDecimalPoint | app.py:59-65 | when both `,` and `.` occur, the later of the two is the decimal point, in both directions |
| PriceText.ResolveSeparatorsMeaning | app.py:59-70 | the separator step keeps every digit in order and leaves only the chosen decimal point, as a dot, with the same digits after it |
| PriceText.ResolveDotLater | app.py:62-63 | a later dot: dropping the commas keeps the digits, the dots and the fraction after the last dot |
| PriceText.ResolveCommaLater | app.py:64-65 | a later comma: dropping the dots and turning commas into dots keeps the digits, and the fraction after the last comma becomes the fraction after the last dot |
| PriceText.ResolveCommaOnly | app.py:66-70 | commas only: a single comma with at most two characters after it is the decimal point; otherwise the commas go and the digits stay |
| PriceText.ParseUnsignedMeaning | app.py:71 | `float()` of digits and dots: none without a digit or with two dots; otherwise the digits read as an integer, divided by ten to the number of digits after the dot |
| PriceText.ParseFloatOfSigned | app.py:127 | `float()` with a sign: the unsigned value, negated after `-` |
| PriceText.ParseFloatExponent | app.py:127 | `float()` of digits, `e` or `E`, an optional sign and digits: the first digits times ten to the signed exponent |
| PriceText.ParseFloatUnderscores | app.py:127 | `float()` of digits with each `_` between two digits: the digits without the underscores |
| PriceText.DigitsThenSpace | app.py:127 | `float()` of digits and one whitespace character: the digits when `float()` strips that character, and a `ValueError` for U+001C to U+001F, which it does not strip |
| PriceText.CleanIgnoresStrip | app.py:55-57 | stripping the text first does not change the cleaned price characters |
| PriceFormats.PlainDigits | app.py:71-73 | a run of digits is read as that integer, subject to the range check |
| PriceFormats.DecimalDot | app.py:71-73 | `w.f` is read as `wf / 10^len(f)` |
| PriceFormats.DecimalComma | app.py:66-68 | `w,f` with at most two digits after the comma is read as a decimal |
| PriceFormats.ThousandsComma | app.py:66-70 | `w,f` with three or more digits after the comma is read as the integer `wf` |
| PriceFormats.DotThenComma | app.py:59-65 | `w.g,f` (the European form "1.234,50") is read as `wgf / 10^len(f)` |
| PriceFormats.CommaThenDot | app.py:59-63 | `w,g.f` (the English form "1,234.50") is read as `wgf / 10^len(f)` |
| PriceFormats.MixedSeparators | app.py:59-65 | any two different separators: the second one is the decimal point |
| PriceFormats.NoDigitsNoPrice | app.py:57-75 | a text without digits gives no price |
| PriceFormats.RepeatedDotNoPrice | app.py:71-75 | two dots and no comma make `float()` fail, so there is no price |
| PriceFormats.PriceWithDecimalPoint | app.py:57-73 | with a single decimal point, the price is the digits scaled by the length of the fraction |
| TextRules.NormalizeTextIsNormalized | app.py:44-50 | the result has no upper-case or accented letter, no character outside `[\w.- ]`, no double space and no space at either end |
| TextRules.NormalizedIsFixpoint | app.py:44-50 | a text that already has that shape is returned unchanged |
| TextRules.NormalizeTextIdempotent | app.py:44-50 | normalising twice is normalising once |
| TextRules.NormalizeTextKeepsContent | app.py:44-50 | apart from spaces and the characters replaced by spaces, the result is the lower-cased, accent-free input in order, and it has the same words (maximal runs of `[\w.-]`) in the same order |
| TextRules.NormalizeTextJoinsWords | app.py:44-50 | the result is the words of the lower-cased, accent-free input joined by single spaces: two words are separated by exactly one space, whatever separated them before |
| TextRules.JoinWordsRoundTrip | app.py:49 | splitting a single-space join back into words gives the same words |
| TextRules.BaseLetterFacts | app.py:46-47 | removing an accent keeps a letter a letter, keeps lower case lower, and is idempotent |
| TextRules.ExtractCodeIsLeftmostMatch | app.py:78-80 | `extract_code` is "" exactly when the pattern matches nowhere; otherwise it is the match at the leftmost position where the pattern matches |
| TextRules.SearchCodeIsLeftmost | app.py:79 | the search returns the first position, from its start, at which the pattern matches |
| TextRules.CodeAtUnique | app.py:79 | at a given position the pattern matches at most one length |
| TextRules.ClassifyCategoryIsFirstMatch | app.py:82-93 | the category is the first one, in table order, with a keyword in the lower-cased description; "general" exactly when no keyword occurs |
| TextRules.ClassifyCategoryIgnoresCase | app.py:89 | the category does not depend on letter case |
| SheetExtraction.ScanHeaders | app.py:105-111 | the scan keeps the last column whose key matches each role, or none |
| SheetExtraction.DetectColumns | app.py:104-116 | no columns means no result; otherwise the description column is the last matching one or the first column, and the price column is the last matching one or the last column |
| SheetExtraction.ExtractProducts | app.py:118-138 | the row loop collects exactly the products that the per-row rule keeps, in row order |
| SheetExtraction.ProcessSheet | app.py:100-143 | a sheet without columns yields nothing; otherwise the products are those of the detected columns |
| SheetExtraction.KeptProductsFacts | app.py:118-138 | every kept product has a non-empty normalised description, a non-zero price, the sheet's supplier and the category of its description, and comes from a row of the sheet |
| SheetExtraction.KeptProductsComplete | app.py:118-138 | every row the per-row rule accepts yields a product in the result |
| SheetExtraction.RowPriceEuropean | app.py:122-127 | "w.g,f" in a sheet is read as `wgf / 10^len(f)` |
| SheetExtraction.RowPriceDropsDecimalDot | app.py:124-127 | "w.f" in a sheet loses its dot and is read as the integer `wf` |
| SheetExtraction.RowPriceExponent | app.py:122-127 | a cell in exponent form is read as its digits times ten to the exponent, and a dot in it is dropped first, so "1.5e+16" reads as "15e+16" |
| SheetExtraction.RowPriceUnderscores | app.py:122-127 | a cell of digits with `_` between digits is read as the digits |
| SheetExtraction.RowPriceTrailingSpace | app.py:122-129 | a cell of digits and a trailing whitespace character is read as the digits, except after U+001C to U+001F: then there is no price and the row is skipped |
| Comparison.GroupProducts | app.py:149-163 | the grouping loop produces the greedy grouping |
| Comparison.PullSimilar | app.py:154-162 | the inner loop collects, in order, every later unused product similar to the seed, and marks them used |
| Comparison.PulledMembers | app.py:156-162 | the pulled positions increase, and are exactly the unused positions similar to the seed |
| Comparison.GroupIsGreedy | app.py:151-163 | a seed together with what it pulls forms a greedy group |
| Comparison.GroupExtends | app.py:151-163 | appending that group keeps the grouping greedy, with every position a product's |
| Comparison.AppendGroup | app.py:151-163 | appending that group marks exactly the seed and the pulled products used, so every position up to the seed is used |
| Comparison.GreedyGroupingUnique | app.py:149-163 | there is exactly one greedy grouping, so the result does not depend on how it was found |
| Comparison.WinnerIsFirstMinimum | app.py:169 | the winner has the least price, and every earlier product costs strictly more (`min` keeps the first) |
| Comparison.FirstOtherIsFirst | app.py:170-173 | the loser is the first product not equal to the winner; there is none exactly when all of them are equal to it |
| Comparison.EntryMeaning | app.py:169-185 | an entry carries a cheapest product's description, price and supplier; the loser's supplier and price belong to the first product unequal to the winner, or are "" and 0.0 |
| Comparison.EntriesMeaning | app.py:168-185 | one entry per group, in group order |
| Comparison.SummarizeGroups | app.py:165-187 | the summary loop computes the entries and the counters of the groups |
| Comparison.CompareProducts | app.py:148-187 | the result is the summary of the unique greedy grouping |
| Comparison.DuplicatesCountBigGroups | app.py:175-176 | `duplicados` counts the groups of more than one product |
| Comparison.IncrementLookup | app.py:177 | incrementing a supplier adds one to that supplier's count and leaves the others |
| Comparison.IncrementUnique | app.py:177 | the dictionary never holds a supplier twice |
| Comparison.TallyFacts | app.py:175-177 | `ganados_por` has unique keys, counts each supplier's wins, holds exactly the winning suppliers, and its counts add up to the number of wins |
| Comparison.WinsAddUpToDuplicates | app.py:175-177 | the wins add up to `duplicados` |
| PdfNumbers.CleanNumber | pdf.py:12-21 | a value that is not text is returned as it is; cleaned text holds no space, has lost nothing but spaces and dots, and keeps every comma |
| PdfNumbers.CleanTextHasNoSpace | pdf.py:16 | no space survives |
| PdfNumbers.CleanTextKeepsAllButDots | pdf.py:16-19 | apart from dots, the result is the space-free input character for character |
| PdfNumbers.CleanTextDotCount | pdf.py:19 | exactly one dot is removed for each position where the thousands pattern matches |
| PdfNumbers.CleanTextKeepsCommas | pdf.py:15-19 | commas are never touched |
| PdfNumbers.CleanTextOfClean | pdf.py:15-19 | a text without spaces or thousands dots is returned unchanged |
| PdfNumbers.CleanTextStable | pdf.py:15-19 | cleaning twice equals cleaning once, for every text |
| PdfNumbers.CleanedHasNoThousandsDot | pdf.py:19 | no dot of the result matches the thousands pattern: a kept dot lands where the pattern still fails |
| PdfNumbers.GroupedDigits | pdf.py:19 | digits grouped by dots into threes lose those dots, and a tail after them is kept |
| PdfNumbers.DecimalDotKept | pdf.py:19 | a dot with other than three digits after it stays |
| Unmerge.FillMerged | aa.py:9-18 | the rectangle, bounds inclusive and 1-based, holds the top-left value read before the fill; no other cell changes |
| Unmerge.UnmergeSheet | aa.py:6-18 | the ranges, listed before any unmerging, are processed once each, in list order |
| Unmerge.UnmergeWorkbook | aa.py:5-18 | every worksheet gets its own ranges processed, and no worksheet touches another |
| Unmerge.FillIdempotent | aa.py:16-18 | processing a range a second time changes nothing |
| Unmerge.FillAllUncovered | aa.py:16-18 | a cell that no range covers keeps its value |
| Unmerge.FillAllCovered | aa.py:9-18 | with ranges that share no cell, as merged ranges never do, each cell of a range ends with that range's original top-left value, whatever the order |

## Left out

- Character classes follow Python only within Latin-1 (U+0000 to U+00FF). Letters,
  case (`str.lower()`) and `\w` are those of Latin-1. Whitespace (`\s`, `strip()`,
  `str.isspace`) is Python's full set. `\d` and the digits `float()` reads are the ASCII
  digits.
- A letter beyond Latin-1 is not a `\w` character in the model, so `normalize_text`
  turns it into a space. Python keeps it, or keeps its base letter once the accent is
  removed: "kāki" becomes "k ki" in the model and "kaki" in Python.
- Accent removal is modelled for the Latin-1 letters and the U+0300–U+036F combining
  marks. Other decompositions and other `Mn` characters are not modelled.
- `float()` is modelled on finite numbers: a sign, digits with at most one dot, an
  exponent after `e` or `E`, and `_` between digits, with the whitespace `float()`
  strips around them. That whitespace is every `str.isspace` character except U+001C to
  U+001F. `extract_price` hands it only digits
  and dots, so there it is read by `ParseUnsigned`.
- SheetExtraction.RowPrice: a price cell reading "inf", "infinity" or "nan" (any case,
  with or without a sign) gives no price, so the row is dropped. Python's `float()`
  returns an infinity or a NaN, both truthy, and the source keeps the row. Prices are
  reals in the model, and a real has no infinity or NaN.
- Prices are exact reals, so floating-point rounding is not modelled.
- Reading files is left out: `pandas.read_excel`, `pdfplumber`, `openpyxl.load_workbook`
  and `save`. A sheet is given as its header row and its rows of cell texts, each cell
  already passed through `str()`.
- The supplier name, which the source takes from the file name, is a parameter.
- ProcessSheet: of the whole-sheet exception handler, only the one failure the modelled
  code can raise is kept: a sheet without columns yields no products.
- ProcessSheet: requires every row to have one cell per column, as a `pandas`
  data frame always does.
- `SequenceMatcher(...).ratio() >= similarity_threshold` is a parameter `similar` on two
  descriptions. It stands for the similarity test, which is not modelled.
- `ganados_por` is an ordered list of (supplier, count) pairs, matching the key order of
  a Python `dict`.
- The range bounds of `normalize_text`'s accent table and of `clean_number`'s regular
  expression are written out by hand. There is no regular-expression engine.
- PdfNumbers.GroupedDigits: states the thousands-dot behaviour for a digit run followed
  by groups. It requires the tail to start with a non-digit and to hold no thousands dot
  of its own.
- `export_to_pdf`, `pdf_to_xlsx`, the command-line entry point, the module-level script
  of `aa.py`, `test.py` and all logging are I/O and are not part of this model.
- `unmerge_cells` is not modelled. It changes only the merge bookkeeping, and every cell
  it could reset is overwritten by the fill.
- Unmerge.FillMerged: requires the range to lie inside the array. openpyxl would grow
  the sheet for a range beyond it.
- Unmerge.FillMerged: requires `min <= max` on both axes, as openpyxl's range objects
  enforce.
