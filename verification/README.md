# Excel Table Updater: the mapping core

The table updater (`pdf_table_app.py`) is a small Streamlit page. A user
picks a company and uploads an Excel sheet. The page then rewrites the
sheet's first column through that company's rows of a mapping table,
`company_mappings.csv`, which has the columns `Company`, `Original` and
`Mapped`. Cells are matched on a normalised form. This Dafny project
models the three functions that do that work:

- `sanitize_text` drops the code points UTF-8 cannot encode.
- `normalize_item` strips the text, collapses whitespace runs into one
  space, removes line breaks and tabs, drops non-printable characters,
  sanitises the result and lowers it.
- `apply_company_mappings` selects the company's rows (comparing company
  names case-insensitively). It builds a dictionary from each row's
  normalised `Original` to its `Mapped`, then replaces every first-column
  cell whose normalised form is a key. All other cells are left verbatim.

Modules:

- `Chars` (chars.dfy): code points and the character classes Python
  consults: `str.isspace`, `str.isprintable`, surrogates and `str.lower`.
- `Seqs` (seqs.dfy): `Filter` and its laws. Filtering is used both for the
  string comprehensions and for the row mask of the mapping table.
- `Text` (text.dfy): `strip`, `re.sub(r'\s+', ' ', ...)`, `str.replace`
  and `str.lower` on strings of code points.
- `Normalize` (normalize.dfy): `sanitize_text` and `normalize_item`, with
  their fixed points and the idempotence property.
- `CompanyMappings` (mappings.dfy): the row selection, the `replace_dict`
  fold, and `apply_company_mappings` on a rectangular table.

The dictionary comprehension is modelled as a left fold over the rows, in
which later rows overwrite earlier ones. It is related to an independent
reference, `FindLast`, which searches the rows from the back. The rewritten
table is described cell by cell in terms of that search.

The docstring of `normalize_item` (lines 21-26) and its code differ; the
model follows the code. The code also lowers its result, which the
docstring does not mention. More importantly, the key does not always have
its edges stripped and its spaces single, as the docstring promises. The
code strips (line 27) and collapses whitespace (line 30) before it drops
non-printable characters (line 34). A character that is neither whitespace
nor printable, such as a NUL or a zero-width space (U+200B), survives the
first two steps and is then removed, which can leave a space behind:

- `"a \u200b"` gives the key `"a "` (`Normalize.TrailingSpaceKept`);
- `"a \x00 b"` gives `"a  b"` (`Normalize.DoubledSpaceKept`);
- `"\x00 a"` gives `" a"`, whose own key is `"a"`, so `normalize_item` is
  not idempotent (`Normalize.NormalizeNotIdempotent`).

A first-column cell `"Revenue \u200b"` therefore does not find the mapping
row whose `Original` is `"Revenue"`. When every character of a cell is
printable or whitespace, the key is canonical and normalising is
idempotent (`Normalize.NormalizeIsCanonical`,
`Normalize.NormalizeIdempotent`).

## Model

| member | source | states |
|---|---|---|
| Chars.Lower | pdf_table_app.py:38 | Lowering turns an ASCII upper-case letter into the matching lower-case letter and leaves every other character alone. It keeps whitespace, printability and surrogates as they are. |
| Chars.LowerSameIff | pdf_table_app.py:38 | Two characters lower to the same character if and only if they are equal up to ASCII case. |
| Text.LowerText | pdf_table_app.py:38 | Under ASCII case folding, `lower()` keeps the length, and each character of the result is the input's character up to case and not upper case. |
| Text.LowerTextEqIff | pdf_table_app.py:49 | Comparing lowered strings, as the company mask does, holds if and only if the strings are equal up to ASCII case. |
| Text.Strip | pdf_table_app.py:27 | `strip()` returns a slice of its input with only whitespace cut off on either side, and the slice neither starts nor ends with whitespace. |
| Text.StripFixedIff | pdf_table_app.py:27 | `strip()` leaves a string unchanged if and only if it neither starts nor ends with whitespace. |
| Text.StripKeepsWords | pdf_table_app.py:27 | `strip()` deletes only whitespace: with whitespace deleted, input and output are equal. |
| Text.StripPreserves | pdf_table_app.py:27 | Stripping introduces no character: a property every input character has holds of every output character. |
| Text.CollapseSpaces | pdf_table_app.py:30 | After `re.sub(r'\s+', ' ', ...)`, the only whitespace is the ASCII space and no two spaces are adjacent. The result is empty only for empty input, and it starts or ends with a space exactly when the input starts or ends with whitespace. |
| Text.CollapseWordPrefix | pdf_table_app.py:30 | A run of non-whitespace characters passes through `re.sub(r'\s+', ' ', ...)` unchanged and in place. |
| Text.CollapseSpaceRun | pdf_table_app.py:30 | A maximal whitespace run, of any length and kind, becomes exactly one space in place. With the row above, this fixes the result for every input. |
| Text.CollapsePreserves | pdf_table_app.py:30 | The collapse introduces no character other than the space. |
| Text.CollapseFixedIff | pdf_table_app.py:30 | The collapse leaves a string unchanged if and only if its only whitespace is single ASCII spaces. |
| Text.CollapseKeepsWords | pdf_table_app.py:30 | The collapse keeps every non-whitespace character, in order: with whitespace deleted, input and output are equal. |
| Text.Replace | pdf_table_app.py:31 | `str.replace` leaves a string without the target unchanged. It leaves no target behind when the replacement does not contain it, and it introduces only characters of the replacement. |
| Text.ReplaceChar | pdf_table_app.py:31 | `str.replace` turns a one-character string into the replacement when it is the target and keeps it otherwise. |
| Text.ReplaceAppend | pdf_table_app.py:31 | `str.replace` of one character works piece by piece over a concatenation, so every other character is kept in place. |
| Text.ReplaceBreaksChar | pdf_table_app.py:31 | The replace chain turns a line feed or a tab into a space, deletes a carriage return and keeps every other character. |
| Text.ReplaceBreaksAppend | pdf_table_app.py:31 | The replace chain works piece by piece over a concatenation. |
| Text.ReplaceBreaks | pdf_table_app.py:31 | The replace chain leaves no line feed, carriage return or tab. It leaves a string unchanged if and only if the string has none of them. |
| Text.ReplaceBreaksAfterCollapse | pdf_table_app.py:30-31 | Placed after the whitespace collapse, the replace chain is the identity. |
| Text.CollapseLower | pdf_table_app.py:30-38 | The whitespace collapse and `lower()` commute. |
| Normalize.SanitizeText | pdf_table_app.py:12-14 | The UTF-8 round trip returns a subsequence of its input without surrogates, shorter by exactly the number of surrogates. It returns the input unchanged if and only if the input has no surrogate. |
| Normalize.KeepPrintable | pdf_table_app.py:34 | The printable filter returns a subsequence of its input made of printable characters, one for each printable character of the input, so it keeps every printable character in order. It returns the input unchanged if and only if every character is printable. |
| Normalize.SanitizeAfterKeepPrintable | pdf_table_app.py:34-37 | Sanitising after the printable filter changes nothing, because no surrogate is printable. |
| Normalize.NormalizeItem | pdf_table_app.py:20-38 | A normalised item holds only printable, non-upper-case characters and no line feed, carriage return or tab. |
| Normalize.NormalizeKeepsWords | pdf_table_app.py:27-38 | Apart from spaces, a key is exactly the cell's printable non-whitespace characters, lowered, in order. |
| Normalize.TrailingSpaceKept | pdf_table_app.py:27-34 | For printable non-whitespace `a` and a non-printable non-whitespace `z`, `a + " " + z` gives the key `a + " "`: the key can end with a space. |
| Normalize.DoubledSpaceKept | pdf_table_app.py:27-34 | For printable non-whitespace `a`, `b` and a non-printable non-whitespace `x`, `a + " " + x + " " + b` gives the key `a + "  " + b`: the key can hold two spaces in a row. |
| Normalize.NormalizeLowerFixed | pdf_table_app.py:38 | Lowering a normalised item again changes nothing. |
| Normalize.NormalizeFixedIff | pdf_table_app.py:27-38 | `normalize_item` returns its argument if and only if the argument is canonical: printable, without upper case, and without a leading, trailing or doubled space. |
| Normalize.NormalizeIsCanonical | pdf_table_app.py:27-38 | When every character is printable or whitespace, the result is canonical. |
| Normalize.NormalizeIdempotent | pdf_table_app.py:20-38 | When every character is printable or whitespace, normalising twice equals normalising once. |
| Normalize.NormalizeNotIdempotent | pdf_table_app.py:27-38 | For any non-whitespace, non-printable `x` and lower-case printable `a`, `x + " " + a` normalises to `" " + a`, whose normalisation is `a`, so idempotence fails in general. |
| Normalize.NormalizeIgnoresCase | pdf_table_app.py:27-38 | Lowering a cell before normalising it makes no difference to its key. |
| CompanyMappings.SelectCompany | pdf_table_app.py:49 | The selection is a subsequence of the mapping rows, and each selected row's company equals the chosen one ignoring case. It has one row for each matching row, so it keeps every matching row in order. It is empty if and only if no row's company matches. |
| CompanyMappings.FoldEntries | pdf_table_app.py:54-57 | Folding entries into a dictionary gives each key the value of its last entry and leaves keys with no entry as they were. |
| CompanyMappings.BuildReplaceDict | pdf_table_app.py:54-57 | Looking a key up in `replace_dict` finds what the back-to-front search of the selected rows' entries finds. |
| CompanyMappings.ReplaceDictKeys | pdf_table_app.py:54-57 | A string is a key of `replace_dict` if and only if it is the normalised `Original` of some selected row. |
| CompanyMappings.ReplaceDictLastWins | pdf_table_app.py:54-57 | For each key, the value is the `Mapped` of the last selected row with that key. |
| CompanyMappings.ApplyCompanyMappings | pdf_table_app.py:40-62 | The shape is kept. An empty table, or a company with no mapping rows, gives the table back unchanged. Otherwise each first-column cell becomes what the back-to-front search finds for its normalised form, or stays verbatim, and every other cell is kept. |
| CompanyMappings.OtherCompanyRowIgnored | pdf_table_app.py:49-60 | Inserting a mapping row of another company anywhere in the mapping table leaves the result unchanged. |
| CompanyMappings.CompanyCaseInsensitive | pdf_table_app.py:49 | Lowering the selected company name does not change the result. |
| CompanyMappings.UnmatchedCellVerbatim | pdf_table_app.py:60 | A first-column cell whose normalised form is the key of no selected row is kept verbatim, not normalised. |
| CompanyMappings.LastMatchingRowWins | pdf_table_app.py:54-60 | A first-column cell becomes the `Mapped` of the company's last row whose normalised `Original` equals the cell's normalised form. |

## Left out

- The Streamlit page (lines 64-106) is not modelled: page setup, widgets, the success and error messages, and the download button. So are reading the CSV and the workbook and writing the workbook (lines 69, 82, 98-103). These are I/O and UI.
- The sorted list of companies offered for selection (line 70) is not modelled. It is UI.
- The `except UnicodeDecodeError` branch of `sanitize_text` (lines 15-17) is not modelled. Decoding the output of an `'ignore'` encode cannot fail, so the branch is unreachable.
- Chars.Lower: models `str.lower` as ASCII case folding only. Non-ASCII letters are treated as having no case, because the Unicode case tables are not modelled. The model's `lower()` therefore never changes a string's length, while Python's can (`"\u0130".lower()` has two characters).
- Chars.IsPrintable is an abstraction of the Unicode database. It covers categories Cc, Cs, Co, Zs, Zl and Zp and a listed part of Cf. Unassigned code points and the rest of Cf count as printable.
- Chars.IsSpace is the whitespace list of CPython. It is used for both `str.strip()` and `\s`, which agree on `str` patterns.
- Cells and mapping fields are strings. `str(x)` of non-string cells (numbers, NaN, dates) is not modelled. The company mask on a NaN company is not modelled either.
- The in-place assignment to `df.iloc[:, 0]` is modelled as a function that returns the new table. pandas dtypes and column labels are not modelled.
- A DataFrame is modelled as a rectangular table of rows, which does not cover pandas indexes.
