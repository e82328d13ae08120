# Report table layout — a Dafny model

This project models the table layout of `create_pdf` in the immunization
performance report generator. The function renders a data frame as a
landscape A4 PDF table. The model covers its four pieces of pure logic:

- **`clean_text`**: twelve Turkish letters are transliterated to ASCII. The
  text is then forced into the ISO/IEC 8859-1 (Latin-1) repertoire, with one
  `?` for each character that has no Latin-1 byte (module `CleanText`).
- **Column widths**: each column's longest text is measured over its header and
  its first 50 values. The column gets that share of the 275 mm usable width.
  A share is raised to at least 15 mm. If the raised widths overflow the page,
  all widths are scaled back (module `ColumnWidths`).
- **Cell truncation**: a cell of width `w` holds `int(w/2)+2` characters. A
  longer text keeps its first `int(w/2)` characters and ends in `..` (module
  `Truncation`).
- **Pagination**: one forward pass over the rows with a vertical cursor. Before
  each data row, a cursor below 180 mm opens a new page, and the header row is
  drawn again there (module `Pagination`).

Module `Report` puts the four together. `Report.Layout` takes the column
names, the rows as text and the cursor height at which a fresh page's table
begins. It returns the drawn lines. Each line records whether it is a header
or a data row, its page, its `y`, and its cells (width and text).

Widths are `real`, so the model's arithmetic is exact where the source uses
floats. Python's `int()` (toward zero) and `s[:n]` (negative `n` counts from the
end) are written out. Python string lengths count code points, and so do
Dafny strings, except for lone surrogates (see "## Left out").

Some behaviour of app.py worth stating plainly:

- Line 58 divides by `total_len`, and there is no fallback. When there is at
  least one column and every header and every one of the first 50 values is
  empty, `total_len` is zero and the division fails. The model returns `Failure(DivisionByZero)`. A
  table with no columns never divides and gets no widths.
- `encode('latin-1', 'replace')` on line 29 turns every character outside
  Latin-1 into one `?`. No character is removed.
- The budget `int(w/2)+2` and the marker `..` are literals on lines 100-102.
- The page-break test on line 83 looks at the cursor *before* a data row
  (`y > 180`). It does not check whether the row will fit.

## Model

| member | source | states |
|---|---|---|
| CleanText.Transliterate | app.py:23-26 | each of the twelve Turkish letters maps to an ASCII letter; every other character is kept |
| CleanText.CleanChar | app.py:23-29 | per character: the result is Latin-1; a Turkish letter becomes its ASCII letter; other Latin-1 characters are kept; every other character becomes `?` |
| CleanText.ReplaceChar | app.py:28 | `s.replace(a, b)` keeps the length, turns every `a` into `b`, keeps every other character, and leaves no `a` behind when `a != b` |
| CleanText.ApplyReplacements | app.py:27-28 | the replace passes keep the length, and every output character is the input character or the target of some pass (`ApplyReplacementsPointwise` gives the position-by-position effect) |
| CleanText.EncodeLatin1 | app.py:29 | one byte per character: a Latin-1 character's code point, and 63 (`?`) for any other character |
| CleanText.DecodeLatin1 | app.py:29 | decoding Latin-1 bytes gives one Latin-1 character per byte, with the byte as its code point |
| CleanText.Latin1RoundTrip | app.py:29 | decoding the encoded text gives the text back exactly when every character is Latin-1 |
| CleanText.ApplyReplacementsPointwise | app.py:27-28 | the replace passes keep the length and act on each position on its own |
| CleanText.ReplacementsUnchained | app.py:23-26 | no replacement target is a letter that a later pass rewrites |
| CleanText.TranslateFirstHit | app.py:27-28 | when no target is rewritten later, a character matched first by pass `k` comes out as pass `k`'s target |
| CleanText.TranslateIsTransliterate | app.py:23-28 | the twelve passes, in dictionary order, act as the one-character transliteration |
| CleanText.Clean | app.py:21-29 | the cleaned text has the input's length and is all Latin-1 (`CleanIsPointwise` ties it to the per-character reference) |
| CleanText.CleanIsPointwise | app.py:21-29 | `clean_text` as written (replace passes, encode with `'replace'`, decode) equals the per-character reference `CleanChar` |
| CleanText.CleanSpec | app.py:23-29 | output has the input's length and only Latin-1 characters; Turkish letters are transliterated, other Latin-1 characters kept, the rest become `?` |
| CleanText.CleanIdempotent | app.py:21-29 | cleaning twice equals cleaning once |
| CleanText.CleanFixesPlainLatin1 | app.py:27-29 | Latin-1 text without Turkish letters comes out unchanged |
| CleanText.CleanExample | app.py:21-29 | `"İzmir Şube €5"` is cleaned to `"Izmir Sube ?5"` |
| ColumnWidths.Sample | app.py:46 | the scanned rows are the first `min(50, rows)` rows |
| ColumnWidths.LongestFrom | app.py:44-49 | the scan result is at least the start value and every scanned length, and equals one of them |
| ColumnWidths.MaxLens | app.py:41-50 | one entry per column; each is at least the header length and each of the first 50 value lengths, and equals one of them |
| ColumnWidths.MaxLensIgnoresLaterRows | app.py:46 | rows after the 50th never change `max_lens` |
| ColumnWidths.Total | app.py:52 | `sum(max_lens)` is at least every entry |
| ColumnWidths.SumReals | app.py:64 | `sum(col_widths)`; it has no contract of its own, and `SumMonotone` and `SumScale` state how it responds to larger and to scaled widths |
| ColumnWidths.TotalZero | app.py:52 | `sum(max_lens)` is zero exactly when every entry is zero |
| ColumnWidths.Share | app.py:58 | a share is non-negative, zero exactly for an empty column, and at most 275 when the length is at most the total |
| ColumnWidths.Shares | app.py:56-58 | one share per column; against the true total each share lies between 0 and 275 (`SharesFillPage` gives their sum) |
| ColumnWidths.Floor15 | app.py:59-60 | a raised width is `max(w, 15)`: at least 15, at least `w`, and one of them |
| ColumnWidths.FlooredWidths | app.py:55-61 | one width per column, each either its share or 15: at least 15 and at least its share, so exactly `max(share, 15)` |
| ColumnWidths.Scale | app.py:66-67 | every width is multiplied by the same factor, so their sum is multiplied by it too |
| ColumnWidths.Normalize | app.py:64-67 | widths summing to more than 275 are each multiplied by `275 / final_total` and then sum to exactly 275; widths summing to at most 275 are unchanged |
| ColumnWidths.ComputeWidths | app.py:52-67 | fails with division by zero exactly when there are columns and all are empty; otherwise one positive width per column, summing to 275, ordered like the column lengths |
| ColumnWidths.SharesSum | app.py:56-58 | the proportional shares sum to the covered fraction of the total times 275 |
| ColumnWidths.SharesFillPage | app.py:52-58 | the unfloored shares sum to exactly 275 |
| ColumnWidths.SumMonotone | app.py:64 | a pointwise larger list of widths has the larger sum |
| ColumnWidths.FlooredAtLeastPage | app.py:56-64 | the raised widths sum to at least 275 |
| ColumnWidths.SumScale | app.py:66-67 | scaling every width by a factor scales their sum by it |
| ColumnWidths.WidthsSum | app.py:52-67 | the final widths sum to exactly 275 |
| ColumnWidths.ScaleKeepsOrder | app.py:67 | a positive factor keeps positive widths positive and keeps their order |
| ColumnWidths.NormalizeKeepsOrder | app.py:64-67 | normalisation keeps positive widths positive and keeps their order |
| ColumnWidths.WidthsPositive | app.py:56-67 | every final width is positive |
| ColumnWidths.ShareMonotone | app.py:58 | a longer column gets at least as large a share |
| ColumnWidths.WidthsMonotone | app.py:54-67 | `max_lens[i] <= max_lens[j]` implies `col_widths[i] <= col_widths[j]` |
| ColumnWidths.NoFlooringKeepsShares | app.py:56-67 | when no share is below 15, the widths are exactly the proportional shares |
| ColumnWidths.MayEndBelowMinWidth | app.py:59-67 | lengths `[1, 100]` give a first width below 15: normalisation does not re-apply the floor |
| Truncation.TruncToInt | app.py:100 | `int()` rounds toward zero: within 1 of its argument, on the argument's side of zero |
| Truncation.MaxChar | app.py:100 | for `w >= 0`, `max_char >= 2` and `2*(max_char-2) <= w < 2*(max_char-1)`; for `w < 0`, `max_char <= 2` |
| Truncation.SliceTo | app.py:102 | `s[:n]` is a prefix of `s`, of length `n` when `0 <= n <= len(s)`, counting from the end when `n` is negative |
| Truncation.Truncate | app.py:100-102 | a text within `max_char` is unchanged; a longer one ends in `..` after a prefix of the text; for `max_char >= 2` the result has exactly `max_char` characters, keeping the first `max_char-2` |
| Truncation.MaxCharOfWidth | app.py:100 | for a width `w >= 0`, `max_char >= 2` and `2*(max_char-2) <= w < 2*(max_char-1)` |
| Truncation.MaxCharMonotone | app.py:100 | a wider cell never has a smaller character budget |
| Truncation.TruncateIdempotent | app.py:100-102 | truncating twice equals truncating once |
| Truncation.TruncateWiderKeepsMore | app.py:100-102 | a wider cell never shows fewer characters |
| Pagination.DataAdvance | app.py:104-105 | the line break after a data row moves the cursor down 8 mm, the data-cell height; with no columns it moves 10 mm |
| Pagination.Bottom | app.py:76-105 | the cursor after a line: 10 mm below a header row, one advance below a data row, and strictly lower than the line when the advance is positive |
| Pagination.Flow | app.py:81-105 | the row loop draws at least one line per row and at most two (a repeated header and the row) |
| Pagination.Paginate | app.py:74-105 | the table opens with the header row on page 1 at the top, and has between one and two lines per row after it |
| Pagination.DataCellsAppend | app.py:81-105 | the data rows drawn by two runs of lines are those of the first run, then those of the second |
| Pagination.Step | app.py:83-104 | one loop step draws two lines when `y > 180`: the header row at the top of the next page, then the data row 10 mm below it. Otherwise it draws only the data row, at `y` on the current page |
| Pagination.FlowFollows | app.py:81-105 | each line the row loop draws follows its predecessor under the page-break rule, and the loop ends on a data row |
| Pagination.FlowData | app.py:81-105 | the row loop draws every row once and in order |
| Pagination.FlowCells | app.py:81-105 | every line the row loop draws is the header row or one of the given rows |
| Pagination.PaginateWellPaginated | app.py:74-105 | the header row opens page 1; a header is drawn exactly after a checked line ending below 180, on the next page at the top; data rows continue the cursor; the table ends on a data row |
| Pagination.PaginateLossless | app.py:81-105 | the data lines draw every row once and in order |
| Pagination.PaginateKeepsWidths | app.py:74-104 | when the header and every row have one cell per column at its width, so does every drawn line |
| Pagination.HeaderOpensEveryPage | app.py:83-90 | a line opens a new page exactly when it is a header row; pages advance by at most one; every header line holds the header row |
| Pagination.LinesDrawnFrom | app.py:74-105 | header lines draw the header row and data lines draw rows that were given |
| Pagination.DataLineInDataCells | app.py:94-104 | the cells of each data line are among the data rows drawn |
| Pagination.DataRowsStayAboveBreak | app.py:83-84 | every data row starts at or above 180 mm, or right under a repeated header |
| Pagination.CursorIsLinear | app.py:104-105 | after `k` data rows without a break, the cursor has moved down by `k` line advances |
| Pagination.FlowPageRun | app.py:81-105 | while the cursor stays at or above 180 mm, the loop draws the rows one advance apart on the current page, then continues as a loop started on the remaining rows |
| Pagination.FlowFirstBreak | app.py:81-105 | the loop draws rows on the current page until the first row whose cursor is below 180; that row goes on the next page under a repeated header |
| Pagination.FirstPageRun | app.py:74-105 | page 1 holds the header and exactly the rows starting at or above 180 mm; the next row opens page 2 under a repeated header at the top |
| Pagination.EighteenRowsOnFirstPage | app.py:74-105 | with the table starting at 32 mm and 8 mm rows, the 18th row starts at 178 mm on page 1 and the 19th opens page 2 under a repeated header |
| Report.HeaderCell | app.py:75 | a header cell has its column's width and the cleaned name, uncut, in Latin-1 |
| Report.DataCell | app.py:96-104 | a data cell has its column's width; its text is Latin-1 and within the character budget; it is the cleaned value when that fits, and when cut it is the first `max_char-2` cleaned characters followed by `..` |
| Report.HeaderCells | app.py:74-75 | one header cell per column, in column order, each at its column's width |
| Report.RowCells | app.py:94-104 | one data cell per column, in column order, each at its column's width |
| Report.TruncateKeepsLatin1 | app.py:100-102 | truncating Latin-1 text leaves Latin-1 text |
| Report.WidthsFailExactly | app.py:42-58 | the width computation fails exactly when there are columns, all headers are empty and all of the first 50 values are empty |
| Report.Widths | app.py:38-67 | the widths of a table that can be laid out: one positive width per column, summing to 275 |
| Report.Body | app.py:81-104 | one drawn row per input row, in input order |
| Report.BodyPrintable | app.py:94-104 | every drawn data cell is Latin-1 and within its character budget |
| Report.Layout | app.py:38-105 | fails exactly on a table that has columns whose headers and first 50 values are all empty |
| Report.LayoutShape | app.py:74-105 | a laid-out table is well paginated with the cleaned header row, draws every row once and in order, and gives every cell its column's width |
| Report.LinesPrintable | app.py:74-105 | lines drawn from Latin-1 rows within budget are Latin-1 and within budget |
| Report.PaginatePrintable | app.py:74-105 | paginating a Latin-1 header row and rows within budget draws only Latin-1 cells, with every data cell within budget |
| Report.LayoutCellsPrintable | app.py:74-105 | every cell of a laid-out table is Latin-1, and no data cell exceeds its width's character budget |

## Left out

- FPDF drawing is not modelled: the logo `image` call and its bare `except`, fonts, fill colours, borders, the centred title, the page-number footer, `alias_nb_pages` and the final `output(...).encode('latin-1')` (app.py:3-19, 32-34, 107). These are calls into a library with no behaviour to check.
- The page heading's vertical layout (top margin, title cell, `ln(12)`) is not modelled. The cursor height at which the table starts on each page is the parameter `top`.
- FPDF's own automatic page break is not modelled. `Pagination.DataRowsStayAboveBreak` bounds where data rows start.
- FPDF's `ln()` is not part of app.py. It moves the cursor down by the height of the last cell drawn. `Pagination.DataAdvance` states that height: 8 mm after data cells. In a table with no columns no cell of the table is drawn, and the last cell is the 10 mm page-title cell of the page heading (app.py:13).
- IEEE floating-point rounding is not modelled. Widths are exact reals, so "sums to 275" holds exactly here and only approximately in the source.
- pandas is not modelled: the table is column names plus rows of already-`str`-converted cells with one cell per column (`ColumnWidths.Rectangular`). The model takes the text measured on lines 44-47 to be the text drawn on line 96. Two pandas behaviours break that:
  - `df.iterrows()` (line 81) casts an all-numeric row to one common dtype. An integer cell next to a float column is measured as `5` through `df[col]` (lines 46-47) but drawn as `5.0` (line 96).
  - With a duplicated column label, `df[col]` (line 46) is a DataFrame. Iterating it yields the column labels, so that column's values are never measured.
- Lone surrogates (U+D800 to U+DFFF) are not modelled. A Python `str` can hold them and `clean_text` turns each into `?`, but a Dafny `char` cannot hold one.
- CleanText.Clean: models only the string branch. A non-string argument returns `str(text)` unchanged (app.py:22).
- Record aggregation, completion ratios and GREEN/YELLOW/RED tiering are not modelled. That code is not part of this model.
