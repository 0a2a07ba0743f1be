# CSV tables of the bika.coa certificate-of-analysis publisher

When the certificate-of-analysis publisher saves reports, it can also produce CSV text
from the samples. There are two table builders, plus a small helper that lists the
available report templates:

- `create_csv_report` builds the table for one sample:
  - seven label/value rows: Sample ID, Client Sample ID, Sample Type, Sample Point and
    the three dates as `MM-DD-YY`;
  - a blank row;
  - then, for each analysis category in ascending order:
    - a row holding the category title;
    - the header row `Analysis, Result, Unit`;
    - one row per analysis of that category, in the order the sample returns them.
- `create_csv_reports` builds one table for many samples:
  - The header row starts with the seven fixed column names.
  - The header gains a column whenever an analysis brings a new column key. The key is
    the analysis title, followed by ` (unit)` when the unit is not empty.
  - Each sample gives one row:
    - It starts as the sample's seven fixed values.
    - Before each analysis is written, it is padded with empty cells up to the current
      header length.
    - The result then goes into the column of the analysis's key, which may overwrite
      an earlier value.
  - Rows written before a later sample adds a column are not widened, so the rows can
    be ragged.
  - With no samples at all, the CSV writer is never created, and the builder fails.
- `ajax_templates` returns the names of the templates found that contain `bika`, sorted.

The model works with rows (sequences of cells) rather than the serialised CSV text.
Both builders are methods whose loops follow the source's loops:

- grouping the analyses into a dictionary keyed by category;
- visiting the sorted keys;
- padding the row;
- appending or overwriting a column.

Each method is proved equal to a specification function (`ReportRows`, `SampleRow`,
`Accumulate`, `Table`). Lemmas state what those functions mean: the row layout, the
category order, the permutation of the analyses, which columns exist, what each cell
holds, and the ragged rows. `ajax_templates` contains no loop, so it is a function.

Modules:

- `Wrappers`: Option and Result.
- `Strings`: Python's string order, `sorted`, and the substring test.
- `Records`: samples, analyses and the date format.
- `Grouping`: the category grouping shared by both builders.
- `CsvReport`: the single-sample table.
- `CsvReports`: the multi-sample table.
- `Templates`: the template list.

Two points about `create_csv_reports` in `src/bika/coa/ajax.py`:

- It sorts each sample's categories before writing them (lines 200-201). Categories
  are not visited in the order they were first met.
- It pads a row only just before writing an analysis into it (lines 208-210). So a
  sample without analyses is never padded. Its row keeps the seven fixed cells even
  when the header already has more columns (`CsvReports.RowWidth`).
  - Hence "every later row has an empty cell in an earlier column it does not fill"
    holds only for samples that have analyses (`CsvReports.LaterRowsPadded`).

## Model

| member | source | states |
|---|---|---|
| Records.TwoDigits | src/bika/coa/ajax.py:128 | a date field below 100 is written as two zero-padded decimal digits that read back as the number |
| Records.FormatDateRoundTrip | src/bika/coa/ajax.py:126-134 | `strftime('%m-%d-%y')` gives eight characters with dashes at positions 2 and 5; they read back as month, day and year modulo 100 |
| Records.DateCellSpec | src/bika/coa/ajax.py:126-134 | a date cell is empty exactly when the date is absent; otherwise it reads back as that date's month, day and two-digit year |
| Records.FormatDate | src/bika/coa/ajax.py:128 | `strftime('%m-%d-%y')`; its meaning (eight characters, reading back as month, day and two-digit year) is `FormatDateRoundTrip` |
| Records.DateCell | src/bika/coa/ajax.py:126-142 | the cell of an optional date: formatted when present, empty when absent (`DateCellSpec`) |
| Records.FixedCells | src/bika/coa/ajax.py:180-188 | the fixed values of a sample are one cell per fixed column name |
| Strings.Below | src/bika/coa/ajax.py:154 | Python's string comparison: code point by code point, a proper prefix first; total, transitive and antisymmetric (`BelowTotal`, `BelowTransitive`, `BelowAntisymmetric`) |
| Strings.SortStrings | src/bika/coa/ajax.py:154 | `sorted` on strings, also used at lines 200 and 231; sorted and a permutation (`SortStringsSpec`), and the only such list (`SortedUnique`) |
| Strings.InsertSorted | src/bika/coa/ajax.py:154 | inserting into a sorted list keeps it sorted and adds exactly the one string |
| Strings.SortStringsSpec | src/bika/coa/ajax.py:154 | `sorted` on strings returns the same strings (as a multiset), in ascending code-point order |
| Strings.SortedUnique | src/bika/coa/ajax.py:231 | two sorted lists holding the same strings are equal, so the sort is the only possible sorted result |
| Strings.Contains | src/bika/coa/ajax.py:231 | `pat in s` holds exactly when `pat` occurs in `s` at some position |
| Grouping.GroupByCategory | src/bika/coa/ajax.py:144-152 | the dictionary has one key per category present in the sample, each created once, and each key's list holds exactly that category's analyses in retrieval order |
| Grouping.SortedCategoriesSpec | src/bika/coa/ajax.py:154 | the categories visited are strictly ascending and are exactly the categories present |
| Grouping.SortedKeysAgree | src/bika/coa/ajax.py:154 | sorting the dictionary keys gives the same list whatever order the keys were created in |
| Grouping.SortedGroups | src/bika/coa/ajax.py:144-154 | grouping then sorting yields the ascending categories, each mapped to its group in retrieval order |
| Grouping.Filter | src/bika/coa/ajax.py:150-152 | the list `group_cats[c]`: the analyses of category `c` in retrieval order (`FilterMembers`, `FilterAppend`, `GroupByCategory`) |
| Grouping.FilterMembers | src/bika/coa/ajax.py:150-152 | a group holds exactly the analyses of its category |
| Grouping.FilterAppend | src/bika/coa/ajax.py:146-152 | grouping is stable: the analyses of an earlier part of the list come first in each group |
| Grouping.OrderedPermutation | src/bika/coa/ajax.py:154-158 | the analyses visited category by category are a permutation of the sample's analyses, each visited once |
| Grouping.SortedCategoriesCount | src/bika/coa/ajax.py:154 | there are as many visited categories as distinct category titles |
| CsvReport.WritePreamble | src/bika/coa/ajax.py:136-143 | writes the seven label/value rows and the blank row |
| CsvReport.WriteBlock | src/bika/coa/ajax.py:155-158 | appends the category row, the `Analysis, Result, Unit` row and one `[title, result, unit]` row per analysis of the group, in order |
| CsvReport.CreateCsvReport | src/bika/coa/ajax.py:123-160 | the rows written are the preamble followed by the blocks of the categories in ascending order |
| CsvReport.AnalysisRowsAt | src/bika/coa/ajax.py:157-158 | the analysis rows of a group are its analyses, one row each, in order |
| CsvReport.ReportLayout | src/bika/coa/ajax.py:136-158 | the table opens with seven rows labelled as the fixed columns and a blank row; it has 8 + 2 × (distinct categories) + (analyses) rows, so 8 for a sample without analyses |
| CsvReport.BlockLayout | src/bika/coa/ajax.py:155-158 | a block is the category row, the header row, then one row per analysis of the category |
| CsvReport.BlocksLength | src/bika/coa/ajax.py:154-158 | the blocks take two rows per category and one per analysis in those categories |
| CsvReport.ReportBlockAt | src/bika/coa/ajax.py:154-158 | the k-th category's block starts after 8 rows plus two rows per earlier category plus one per analysis of an earlier category |
| CsvReport.BlockBodiesRows | src/bika/coa/ajax.py:154-158 | the analysis rows of the blocks, read block by block, are the rows of the visited analyses in visiting order |
| CsvReport.BlocksPartitionAnalyses | src/bika/coa/ajax.py:144-158 | the analysis rows of the table, block by block, are the rows of a permutation of the sample's analyses, each exactly once; each block's rows are those of exactly its own category's analyses |
| CsvReports.ColumnKey | src/bika/coa/ajax.py:202-207 | the key is the title, extended by ` (unit)` exactly when the unit is not empty |
| CsvReports.KeysCollide | src/bika/coa/ajax.py:202-216 | a unit-less title `Ca (total)` and title `Ca` with unit `total` share one column |
| CsvReports.Pad | src/bika/coa/ajax.py:208-210 | padding extends a shorter row to the header length with empty cells and leaves a row that is not shorter unchanged |
| CsvReports.IndexOf | src/bika/coa/ajax.py:216 | `headers.index(key)` is the first position holding the key |
| CsvReports.PlaceAnalysis | src/bika/coa/ajax.py:202-216 | one analysis step (key, padding, then append a new column or overwrite the existing one) computes `Place` |
| CsvReports.PlaceFacts | src/bika/coa/ajax.py:208-216 | after one step the header gains the key if it was new; names stay distinct; the row is exactly as long as the header; the key's cell holds the result; padding cells are empty; other cells are unchanged |
| CsvReports.LastResultSpec | src/bika/coa/ajax.py:212-216 | a column's result is present exactly when some analysis has that key, and is then the result of the last such analysis |
| CsvReports.FillHeaders | src/bika/coa/ajax.py:200-216 | writing analyses only appends names to the header; names stay distinct; the header gains exactly the new keys; once anything is written the row reaches the header length |
| CsvReports.FillCells | src/bika/coa/ajax.py:200-216 | after writing analyses, each cell holds the last result written to its column, else the earlier cell, else empty (last write wins) |
| CsvReports.FillGroup | src/bika/coa/ajax.py:201-216 | writes the analyses of one category, in order |
| CsvReports.SampleLine | src/bika/coa/ajax.py:180-216 | one sample's row starts as its fixed values and takes its analyses category by category in ascending order |
| CsvReports.SampleRowFacts | src/bika/coa/ajax.py:180-216 | a sample extends the header by the keys of its analyses; a sample without analyses leaves the header and its seven-cell row unchanged; each cell is the sample's last result for that column |
| CsvReports.CreateCsvReports | src/bika/coa/ajax.py:162-224 | the table is the header row, then one row per sample in input order; no samples give the unbound-writer failure |
| CsvReports.AccumulateShape | src/bika/coa/ajax.py:165-218 | the header always starts with the seven fixed names and never repeats a name |
| CsvReports.AccumulatePrefix | src/bika/coa/ajax.py:200-218 | later samples only append header names and rows: the earlier header and rows are prefixes of the final ones |
| CsvReports.HeaderColumns | src/bika/coa/ajax.py:165-216 | the final header names are the fixed names and the column keys of the samples' analyses, nothing else |
| CsvReports.SampleRowAt | src/bika/coa/ajax.py:169-218 | each sample's row is fixed when that sample is written, against the header the earlier samples left |
| CsvReports.RowWidth | src/bika/coa/ajax.py:208-218 | a sample without analyses keeps seven cells; otherwise its row is as long as the header was after it; no row is longer than the final header, and a row is shorter than the final header whenever a later sample added a column |
| CsvReports.RowCells | src/bika/coa/ajax.py:200-222 | each cell of a row, against the final header, is the sample's last result for that column, else its fixed value, else empty |
| CsvReports.LaterRowsPadded | src/bika/coa/ajax.py:208-214 | a column that existed before a sample with analyses was written, and that none of its analyses names, holds an empty cell in that sample's row |
| CsvReports.TableShape | src/bika/coa/ajax.py:169-222 | failure exactly when there are no samples; otherwise N+1 rows, the first a header of distinct names led by the fixed names |
| CsvReports.RaggedRows | src/bika/coa/ajax.py:208-222 | with two samples of one analysis each, each analysis bringing a new key, the first row is one cell shorter than the header and is not widened; the second row has an empty cell under the first sample's column |
| CsvReports.FixedColumnOverwritten | src/bika/coa/ajax.py:180-216 | in every row, each of the seven fixed columns keeps its name; its cell holds the result of the sample's last analysis whose key is that name, overwriting the sample's own value; when no analysis names it, the sample's own value stays |
| CsvReports.SampleTypeOverwritten | src/bika/coa/ajax.py:212-216 | example: a lone analysis titled `Sample Type` without a unit replaces the sample type in the row and adds no column |
| Templates.KeepBika | src/bika/coa/ajax.py:231 | the comprehension keeping the names that contain `bika`, in the finder's order (`KeepBikaCounts`) |
| Templates.AjaxTemplates | src/bika/coa/ajax.py:231 | the result is sorted and holds exactly the kept names |
| Templates.KeepBikaCounts | src/bika/coa/ajax.py:231 | filtering keeps each name containing `bika` as often as it was found and drops the others |
| Templates.AjaxTemplatesSpec | src/bika/coa/ajax.py:231 | the list holds exactly the found names containing `bika`, with their counts, in ascending order, and it is the only sorted list with these names |
| Templates.TemplateExamples | src/bika/coa/ajax.py:231 | `bika` is matched anywhere in the name, and the kept names come out sorted |

## Left out

- `ajax_save_reports`, the publishing orchestration, is not part of this model. Rendering
  PDFs, storing report bundles and building exit URLs are calls into the hosting framework.
- CSV serialisation by `csv.writer` is not modelled: quoting, line endings and the
  `StringIO` buffer. The model ends at the rows of cells.
- An absent date is `None` in the source and is written by the CSV writer as an empty
  field. The model writes the empty cell directly.
- Dates are calendar dates with a year, month and day. Only `%m-%d-%y` is modelled. Time
  zones and other `strftime` behaviour are not.
- Sample and analysis accessors are fields of `Sample` and `Analysis`: `getAnalyses`,
  `Title`, `getCategoryTitle`, `getFormattedResult(html=False)` and the service's
  `getUnit`. An empty or missing unit is the empty string.
- The template finder (`getUtility(ITemplateFinder).get_templates`) is left out because
  it looks up templates on disk. Its result is a parameter: a sequence of (name, second
  element) pairs.
- In Python 2 the order of `group_cats.keys()` is arbitrary. The model lists the keys in
  the order they are created, and `Grouping.SortedKeysAgree` proves that every order
  sorts to the same list.
- `emailview.py` and the package `__init__.py` are not part of this model.
- Logging is left out.
- Records.FixedCells: its contract states only that there is one cell per fixed column.
  The cells themselves are given by its definition and are read through `RowCells` and
  `ReportLayout`.
