# aroma-web in Dafny

A model of the data core of the aroma-web page, `main.py`. The page shows the organiser's
perfume-split sheet (a Google Sheets table) to one participant. The model covers five parts:

- `normalize_name`: how header names and the participant's name are put into canonical form.
- `extract_first_valid_number`: how a row's price is found.
- `prepare_dataframe`: how each sheet row becomes a record with five fields:
  aroma name, ordered millilitres, price, total collected and remaining millilitres.
- Mode selection and tagging in the `index` route: which records a mode shows, and which tag
  the page gets.
- `make_csv_url`: how the sheet link becomes its CSV export link.

Modules, one file each:

- `Wrappers` (`wrappers.dfy`): `Option` and `Result`.
- `Text` (`text.dfy`): Python's `strip`, `lower` and `replace` on strings, and
  `normalize_name` with its properties. One `replace("  ", " ")` pass halves each run of
  spaces and does not collapse it. As a result `normalize_name` is idempotent exactly when
  its output has no double space.
- `Numbers` (`numbers.dfy`): cells are text. The numbers a cell may hold are given by a
  small decimal grammar: an optional sign, then digits with at most one point. This module
  also holds integer coercion (truncation toward zero) and the price scan. The price scan is
  a function plus the `for` loop with its early return, proved equal.
- `Sheet` (`sheet.dfy`): `prepare_dataframe`.
  - A table is a header sequence plus rows of cells. Columns are referred to by position.
    pandas makes the headers of a loaded frame unique, so a lookup by name and a lookup by
    position agree.
  - The dict of normalised headers is a `map` from canonical header to position. It keeps
    the last position of a repeated key.
  - The method `PrepareDataframe` runs the `for`/`break` name scan, does the dict lookup and
    fills the records row by row. It is proved equal to the function `Prepare`, and the
    column properties are proved about `Prepare`.
- `View` (`view.dfy`): the `index` route without its I/O.
  - `plan` shows nothing, `mine` shows the records with a positive `ordered_ml` in row
    order, and any other mode shows every record.
  - The tag is computed from the unfiltered list, so it never depends on the mode.
- `SheetUrl` (`sheet_url.dfy`): `make_csv_url`, with URL parsing modelled as plain
  splitting. The fragment is cut at the first `#` and the query at the first `?`. The path
  is split at `/`, the query at `&`, and each query piece at its first `=`.
  - `ExportUrl` builds `https://docs.google.com/spreadsheets/d/<id>/export?format=csv&gid=<gid>`
    by joining the segments `https:`, (empty), `docs.google.com`, `spreadsheets`, `d`, `<id>`
    and `export` with `/`, then adding `?` and the query pieces `format=csv` and `gid=<gid>`
    joined with `&`.

Behaviour of the code that the model keeps as written:

- `normalize_name` halves each run of spaces rather than collapsing it, so `"a   b"`
  becomes `"a  b"` (`Text.NormalizeNameThreeSpaces`).
- The character stripping of lines 93-99 runs only after a cell has been chosen as the
  price, so a cell such as `"350,00 ₸"` is rejected by `float()` and is never the price
  (`Numbers.PriceWithCurrencySign`).
- `ordered_ml`, `total_collected` and `remaining_ml` use `pd.to_numeric`, which has no
  comma handling. A cell `"12,5"` gives 0 (`Numbers.CoerceIntRejectionExamples`).
- Negative values are truncated toward zero and are not clamped.
- There is no mode other than `plan`, `mine` and the rest.

## Model

| member | source | states |
|---|---|---|
| Text.LowerChar | main.py:50 | the lower-cased character is never upper-case; a character that is not upper-case is unchanged; a capital becomes a small letter that `UpperChar` maps back to it; whitespace stays whitespace |
| Text.UpperChar | main.py:50 | the partner of `LowerChar`: a small letter of the covered scripts becomes a capital, anything else is unchanged |
| Text.LowerUpperInverse | main.py:50 | `LowerChar` and `UpperChar` undo each other on capitals and on small letters, so each capital has its own small letter |
| Text.LowerSpec | main.py:50 | `lower()` leaves no upper-case letter, keeps whitespace as whitespace, changes no character that is not upper-case, and turns each capital into its own small letter |
| Text.TrimStartSpec | main.py:49 | the leading part `strip()` removes is all whitespace, and what is left is empty or starts with a non-space |
| Text.TrimEndSpec | main.py:49 | the trailing part `strip()` removes is all whitespace, and what is left is empty or ends with a non-space |
| Text.ReplaceCharSpec | main.py:51 | after `replace("\u00a0", " ")` no NBSP remains, each NBSP has become a space in its place, and every other character is kept in place |
| Text.ReplaceDoubleSpacesChars | main.py:52 | the `"  "`→`" "` pass only outputs characters of its input |
| Text.ReplaceDoubleSpacesEnds | main.py:52 | the pass keeps a first or last character that is not a space |
| Text.ReplaceDoubleSpacesRun | main.py:52 | a run of `k` spaces followed by a non-space or the end comes out as `(k + 1) / 2` spaces |
| Text.ReplaceDoubleSpacesShortens | main.py:52 | the pass shortens the string if and only if the string has two adjacent spaces |
| Text.ReplaceDoubleSpacesNoPair | main.py:52 | a string without two adjacent spaces passes through unchanged |
| Text.ReplaceDoubleSpacesFixed | main.py:52 | the pass leaves a string unchanged exactly when it has no two adjacent spaces |
| Text.PrepassSpec | main.py:48-51 | after strip, lower and the NBSP replacement, the name has no whitespace at either end, no NBSP and no upper-case letter |
| Text.NormalizeNameSpec | main.py:47-53 | a normalised name has no whitespace at either end, no NBSP and no upper-case letter |
| Text.NormalizeNameOfCanonical | main.py:47-53 | on a name with no whitespace at the ends, no NBSP and no upper case, only the space pass acts |
| Text.NormalizeNameIdempotentIff | main.py:47-53 | normalising twice equals normalising once if and only if the first result has no double space |
| Text.NormalizeNameRun | main.py:47-53 | between two canonical words, `k` spaces become `(k + 1) / 2` spaces |
| Text.NormalizeNameThreeSpaces | main.py:47-53 | `"a   b"` normalises to `"a  b"` and that to `"a b"`, so normalisation is not idempotent |
| Text.NormalizeNameExample | main.py:47-53 | the header `" John  Doe "` normalises to `"john doe"` |
| Text.NormalizeNamePlainExample | main.py:47-53 | the request `"john doe"` normalises to itself, so it matches that header |
| Text.NormalizeNameKazakhExample | main.py:47-53 | the header `"Әлия"`, whose capital lies in the Cyrillic supplement, normalises to `"әлия"` |
| Text.NormalizeNameNbspAsSpace | main.py:47-53 | a name and the same name with every NBSP typed as a space have the same canonical form |
| Text.NormalizeNameNbspBetweenWords | main.py:47-53 | a header with an NBSP between two canonical words matches the user name typed with a space |
| Text.IndexOf | main.py:23 | `list.index`: the position of the first occurrence, with no occurrence before it |
| Numbers.ParseUnsigned | main.py:41 | an unsigned decimal that parses is non-negative and non-empty |
| Numbers.ParseDecimal | main.py:41 | a decimal that parses is non-empty, and a positive one does not start with `-` |
| Numbers.ParseDecimalChars | main.py:41 | a string that parses holds only digits, signs and the point |
| Numbers.NonNumeralNeverParses | main.py:41-45 | any other character makes `float()` fail |
| Numbers.TruncToInt | main.py:80 | `astype(int)` truncates toward zero: `0 <= n <= x < n + 1` for `x >= 0` and `n - 1 < x <= n <= 0` for `x < 0` |
| Numbers.CoerceIntTruncates | main.py:77-81 | an unparsable cell coerces to 0, and a number coerces to its truncation toward zero |
| Numbers.ParseFormatInt | main.py:77-81 | an integer written in a cell parses back to itself and coerces back to itself |
| Numbers.ParseUnsignedFixed | main.py:41 | an unsigned fixed-point number `n / 10^k` written with a point reads back as exactly `n / 10^k` |
| Numbers.ParseFormatFixed | main.py:41 | a signed fixed-point number with a fraction reads back as its value, written with a point through `float()` and written with a point or a comma through the parse of line 41 |
| Numbers.FormatFixedExample | main.py:41 | `35000 / 10^2` written with a comma is the cell `"350,00"` |
| Numbers.CoerceIntTruncationExamples | main.py:77-81 | `"12.5"` gives 12 and `"-12.5"` gives -12: truncation, not rounding or flooring |
| Numbers.CoerceIntNegativeExample | main.py:77-81 | `"-5"` gives -5: negatives are kept |
| Numbers.CoerceIntRejectionExamples | main.py:77-81 | `"12,5"`, `""` and `"abc"` give 0 |
| Numbers.FirstValidNumberSpec | main.py:38-46 | the result is positive and is the parse of the first cell, in column order, that parses to a positive number; there is no result exactly when no cell does |
| Numbers.ExtractFirstValidNumber | main.py:38-46 | the loop with its early return computes the first-positive-cell function |
| Numbers.PriceSpec | main.py:87-91 | the price is never negative; it is 0 exactly when no cell is positive, and otherwise the value of the first positive cell |
| Numbers.TextCellNeverParses | main.py:39-45 | a cell with a currency sign, unit, space or letter is never a price candidate |
| Numbers.DashCellRejected | main.py:41-45 | a `"-"` placeholder cell is skipped |
| Numbers.CommaPriceParses | main.py:41 | `"350,00"` reads as 350 once the comma becomes a point |
| Numbers.PriceWithComma | main.py:87-91 | the row `["Al Rehab", "-", "350,00"]` has price 350 |
| Numbers.PriceWithCurrencySign | main.py:87-99 | the row `["Al Rehab", "-", "350,00 ₸"]` has price 0 |
| Sheet.NameColumn | main.py:58-65 | the name column is the first header whose lower-case form contains `название`; there is none exactly when no header qualifies |
| Sheet.FindNameColumn | main.py:58-62 | the `for`/`break` scan finds that first matching header |
| Sheet.CanonicalHeaders | main.py:67-69 | one canonical key per header, the key at position `j` being `normalize_name` of header `j` |
| Sheet.LastPositions | main.py:67-69 | the dict has exactly the canonical keys, each mapped to a position holding that key with no later position holding it |
| Sheet.UserColumn | main.py:75-83 | there is no user column exactly when the user name is empty or matches no canonical header; otherwise it is the last header whose canonical form equals the user name |
| Sheet.NormalizedColumnsLookup | main.py:67-76 | the test `user_name and user_name in normalized_columns` and the dict lookup select exactly that column |
| Sheet.UserColumnIsLastMatch | main.py:67-76 | the last header whose canonical form equals a non-empty user name is the user column |
| Sheet.ExactColumn | main.py:104-115 | an exact-header lookup is absent exactly when no header is equal, and otherwise is the first equal header |
| Sheet.LocateColumns | main.py:58-115 | the lookups fail exactly when there is no name column, and every located column lies inside the table |
| Sheet.MakeRecords | main.py:71-120 | one record per row, the record at position `i` built from row `i` |
| Sheet.Prepare | main.py:56-122 | the schema error is raised exactly when no header names the aroma column; otherwise the result has one record per row |
| Sheet.PrepareDataframe | main.py:56-122 | the method computes `Prepare`: it fails on a missing name column and otherwise builds the records from the located columns |
| Sheet.FillRecords | main.py:71-120 | the records filled row by row, each row's price coming from the scan loop, equal one record per row in row order |
| Sheet.PrepareNames | main.py:58-72 | every record's aroma name is its row's cell in the first name column |
| Sheet.PrepareOrderedMlAbsent | main.py:75-83 | with an empty user name, or one that matches no canonical header, every `ordered_ml` is 0 |
| Sheet.PrepareOrderedMlLastMatch | main.py:75-81 | otherwise every `ordered_ml` is the coerced cell of the last matching header |
| Sheet.PreparePrice | main.py:87-91 | every record's price is non-negative: 0 exactly when no cell of its row is positive, and otherwise the value of the first positive cell |
| Sheet.PrepareFixedColumns | main.py:104-120 | `total_collected` and `remaining_ml` are 0 when their exact header is absent, and otherwise the coerced cell under it |
| View.Mine | main.py:145-146 | the `mine` rows are exactly the records with a positive `ordered_ml`, and there are no more of them than records |
| View.MineIsSubsequence | main.py:145-146 | the `mine` rows keep the order of the full list |
| View.MineAppend | main.py:145-146 | filtering a concatenation filters each part in turn |
| View.MinePartition | main.py:145-146 | the kept rows and the dropped rows together are the full list as a multiset, and every dropped row has `ordered_ml <= 0` |
| View.Select | main.py:140-146 | the rows shown are always a subsequence of the full list: none for `plan`, exactly the positive-`ordered_ml` records for `mine`, and all records for any other mode |
| View.Tag | main.py:148-150 | the re-order tag is chosen exactly when some record has a positive `ordered_ml`, that is, exactly when the `mine` view is not empty; otherwise the order tag is chosen |
| View.Index | main.py:129-150 | the page fails exactly when no header names the aroma column, and otherwise echoes the raw user name and the mode |
| View.TagIndependentOfMode | main.py:148-150 | the tag is the same for every mode |
| SheetUrl.Split | main.py:22 | `str.split` always gives at least one piece |
| SheetUrl.SplitPartsFree | main.py:22 | no piece of a split contains the separator |
| SheetUrl.JoinSplit | main.py:22 | joining the pieces of a split with the separator gives the string back |
| SheetUrl.SplitJoin | main.py:22 | splitting a join of separator-free pieces gives the pieces back |
| SheetUrl.Before | main.py:21 | the part before the first separator contains none and is a prefix |
| SheetUrl.After | main.py:21 | the string is the part before the first separator, the separator and the part after it; without a separator the part after is empty |
| SheetUrl.SegmentAfterDIsIndexed | main.py:23 | the scan for the first `d` segment equals `path_parts[path_parts.index("d") + 1]`, with `None` where that raises |
| SheetUrl.FirstGidSpec | main.py:24-25 | the gid is the value of the first `gid=` piece with a non-empty value; there is none exactly when no piece qualifies |
| SheetUrl.SpreadsheetIdOfLink | main.py:21-23 | in `https://docs.google.com/spreadsheets/d/<id>/<page>` the id is the segment after `d` |
| SheetUrl.GidOfSinglePiece | main.py:24-25 | the query `gid=<gid>` names that gid |
| SheetUrl.GidOfExportQuery | main.py:24-25 | the query `format=csv&gid=<gid>` names that gid |
| SheetUrl.MakeCsvUrlOfEditLink | main.py:20-30 | a link `.../d/<id>/<page>?<query>#<fragment>` gives the export link of that id and of the query's first gid; the fragment plays no part |
| SheetUrl.MakeCsvUrlOfConfiguredLink | main.py:13-30 | a link shaped like the configured one, `.../d/<id>/edit?gid=<gid>#gid=<gid>`, exports sheet `<gid>` of `<id>` |
| SheetUrl.MakeCsvUrlDefaultGid | main.py:24-25 | a link without a query exports `gid=0` |
| SheetUrl.MakeCsvUrlOfExportUrl | main.py:20-30 | an export link maps to itself |
| SheetUrl.MakeCsvUrlIdempotent | main.py:20-30 | applying `make_csv_url` to its own result gives the same link |

## Left out

- The FastAPI app, the route's query-parameter defaults (`mode="all"`, `user=""`) and the Jinja template. `View.Index` takes the raw user name and the mode as parameters and returns what the route passes to the template.
- `load_data` and `pd.read_csv`: the network fetch is not modelled, and the sheet is given as a table of text cells.
- Numbers.ParseDecimal: a small decimal grammar stands in for Python's `float()` and `pd.to_numeric`. It does not accept `inf`, `nan`, exponents, `_` separators or surrounding whitespace, and numbers are exact reals, not binary floats.
- Numbers.Price: the float→`str`→strip→reparse round trip of lines 93-99 is not modelled. It gives back the chosen value for ordinary decimals. It would garble values that `str` prints in exponent form, for example `1e-05`.
- Text.LowerChar: lower-cases only the capitals of ASCII, Latin-1 and Cyrillic with its supplement (U+0400 to U+052F, which includes the Kazakh letters). It leaves every other capital, for example Latin Extended-A or Greek, unchanged, and has no letter that lower-cases to several characters. So a header with such a capital matches the user name only when both are spelled in the same case.
- Text.IsSpace: is the set of characters Python's `str.strip()` treats as whitespace, written out by code point.
- Sheet.FillRecords: fills the records one row at a time, where pandas fills the result frame one column at a time. The resulting table is the same.
- SheetUrl.MakeCsvUrl: `urlparse` and `parse_qs` are plain splitting here. The scheme and host are treated as path segments, and no percent-decoding or `+` decoding is done. So a host segment named `d` would be taken for the marker.
- SheetUrl.ExportUrl: is defined from its `/` segments. No lemma shows its spelling as the single literal string.
- `SHEET_URL`, `ORDER_TAGS` and `REORDER_TAGS` are constants. Only the tag strings appear, as `View.OrderTags` and `View.ReorderTags`.
- `astype(int)` on infinite or NaN values cannot arise in the model, because the grammar has no such values.
- Numbers.CoerceInt: `astype(int)` at lines 80, 108 and 119 gives 64-bit integers, so a cell with a value beyond the 64-bit range (a 20-digit number, say) does not keep its value in the program. The model's integers are unbounded and keep it.
