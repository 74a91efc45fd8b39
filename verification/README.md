# Sales dashboard: upload cleaning, filtering and aggregation

A model of the data logic of a small sales dashboard (`app.py`). The dashboard has
two handlers:

- **update_data** receives an uploaded spreadsheet. It chooses a reader from the
  file name, rejects tables without the five required columns (Date, Region,
  Product, Sales, Category), coerces the Date column, and drops rows whose Date,
  Region or Category is missing. It returns the cleaned dataset and the distinct
  Region and Category values as the options of two multi-select filters. Every
  failure returns "no update" with two empty option lists.
- **update_graphs** filters the stored dataset by the selected regions, the
  selected categories and an inclusive date range. An empty selection means "all".
  From the filtered rows it computes four tables: Sales per month, the ten
  best-selling products, Sales per region, and a Region x Category pivot of Sales
  sums. With no stored dataset it returns four empty figures.

The model is written as pure functions over sequences of immutable records.

| module | file | contents |
|---|---|---|
| `Records` | `records.dfy` | dates, raw and cleaned rows, decoded tables, grouping keys |
| `Seqs` | `seqs.dfy` | substring test, first-occurrence de-duplication, column mapping, boolean-mask filtering |
| `Upload` | `upload.dfy` | the upload handler |
| `Filtering` | `filtering.dfy` | the row mask of the rendering handler |
| `Aggregation` | `aggregation.dfy` | group-by-sum, insertion sort by total, the `n` largest groups, cell lookup |
| `Dashboard` | `dashboard.dfy` | the rendering handler and its four tables |

Library work enters as parameters. The model does not include decoding the data
URL, base64, or the CSV and Excel readers. It takes them as
`decode: (Decoder, string) -> Option<Table>`, where `None` means the library
raised. Date coercion is `parse: string -> Option<Date>`, where `None` means the
value became "not a time".

The dataset that travels between the handlers through a hidden page element is
modelled as `Option<seq<Row>>`. `None` means nothing has been stored.

Behaviour of the code that the model follows exactly:

- **Failed upload.** Every failure returns `dash.no_update` for the dataset
  (app.py:85, 98, 117), so the previously stored dataset stays in place, and both
  option lists are reset to `[]`. `UploadResult.data == None` models "no update".
- **Unparseable dates.** They are not errors: `pd.to_datetime(..., errors='coerce')`
  turns them into "not a time", and the following `dropna` removes those rows, so
  the upload still succeeds (app.py:106-107).
- **Reader choice.** The reader is chosen by substring anywhere in the file name,
  not by its extension (app.py:93-95). So `report.csv.xlsx` is read as CSV, and
  `xls_notes.txt` is read as Excel.
- **Stray line.** Line app.py:100 holds a stray `s` that stops the file from
  loading. Lines app.py:119-126 can never run. The model follows the evident
  intent: the column check comes straight after the reader choice, and the
  unreachable lines are ignored.

## Model

| member | source | states |
|---|---|---|
| Seqs.ContainsIsInfix | app.py:93-95 | The left-to-right substring scan answers true exactly when the pattern occurs as a contiguous slice somewhere in the file name. |
| Seqs.Unique | app.py:110-111 | The distinct values of a column: no value listed twice, every listed value occurs in the column, every value of the column is listed. |
| Seqs.UniqueFirstOccurrenceOrder | app.py:110-111 | The distinct values are listed by increasing position of their first occurrence in the column. |
| Seqs.Filter | app.py:149-154 | Boolean-mask selection returns the elements at the increasing positions where the mask holds, and only those: an order-preserving subsequence. |
| Seqs.PickedMembership | app.py:149-154 | An element is in the masked result if and only if it is in the input and the mask holds for it. |
| Upload.DecoderChoice | app.py:93-98 | A name containing "csv" selects CSV even if it also contains "xls"; otherwise a name containing "xls" selects Excel; any other name selects no reader. |
| Upload.CheckColumns | app.py:101-103 | The header passes if and only if each of Date, Region, Product, Sales and Category is a column name; it fails if and only if one of the five is missing. |
| Upload.Clean | app.py:106-107 | Cleaning keeps exactly the rows whose date parses and whose Region and Category are present, in their original order, with the parsed date and every other cell unchanged. |
| Upload.ColumnValues | app.py:110-111 | A value is a Region (Category) option if and only if some cleaned row carries it. |
| Upload.UpdateData | app.py:83-117 | The upload yields a dataset if and only if there is content, the name selects a reader, the reader succeeds and all required columns are present; every other outcome is "no update" with two empty option lists; on success both option lists are duplicate-free and contain exactly the values the rows carry. |
| Upload.MissingColumnRejected | app.py:101-117 | A decoded table that lacks any one required column produces "no update" with empty option lists. |
| Upload.UploadedOptions | app.py:106-111 | The stored dataset is the cleaned table, and both option lists follow the order in which values first appear in it. |
| Filtering.MaskAgrees | app.py:150-151 | On every row, testing membership in "the selection, or every distinct value when nothing is selected" agrees with reading an empty selection as "no constraint". |
| Filtering.ApplyFilter | app.py:149-154 | The filtered rows are the subsequence of the dataset at the increasing positions of the rows the selection admits. |
| Filtering.FilterKeepsExactly | app.py:149-154 | A row is shown if and only if it is in the dataset, its Region is selected or no region is, its Category is selected or no category is, and start <= Date <= end. |
| Filtering.SameVerdictSameResult | app.py:149-154 | Two selections that admit the same rows of the dataset filter it to the same sequence. |
| Filtering.NoRegionMeansAll | app.py:150 | Selecting no region gives the same rows as selecting every region that occurs in the dataset. |
| Filtering.NoCategoryMeansAll | app.py:151 | Selecting no category gives the same rows as selecting every category that occurs in the dataset. |
| Filtering.DefaultShowsYear2023 | app.py:50-54 | With the widgets in their initial state, a row is shown if and only if it is in the dataset and dated in 2023. |
| Aggregation.Accumulate | app.py:157 | Adding a row's Sales to a grouping adds it to the bucket of its key, or opens a new last bucket when the key is new; every other bucket is unchanged. |
| Aggregation.GroupSum | app.py:157-168 | Group-by-sum: one bucket per distinct key, in first-occurrence order, each holding the Sales sum of the rows with that key; keys are distinct and the bucket totals add up to the total Sales. |
| Aggregation.GroupLookup | app.py:168 | A key has a bucket if and only if some row carries it, and that bucket holds the Sales sum of those rows. |
| Aggregation.SortByTotal | app.py:161 | Sorting by total yields a non-increasing permutation of the buckets that keeps keys distinct. |
| Aggregation.TopK | app.py:161 | The n largest buckets: min(n, number of buckets) of them, non-increasing, drawn from the grouping, and no bucket left out is larger than any kept one. |
| Aggregation.LeftOutIsSmaller | app.py:161 | A bucket whose key is not among the n largest has a total no greater than every kept total. |
| Dashboard.TopProducts | app.py:161 | At most ten entries, min(10, number of distinct products) of them, with distinct products, non-increasing totals, each total the Sales sum of its product, and every product left out summing to no more than any listed one. |
| Dashboard.TopProductsSound | app.py:161 | Every listed product occurs in the rows and carries its own Sales sum. |
| Dashboard.TopProductsDominate | app.py:161 | Every product that occurs but is not listed sold no more than each listed product. |
| Dashboard.CellSalesIsGroupSum | app.py:168 | Masking out the rows of a Region x Category cell and totalling their Sales gives the same number as the group sum for that cell key. |
| Dashboard.HeatmapCell | app.py:168 | A pivot cell exists if and only if some row lies in it, and it holds the Sales sum of those rows. |
| Dashboard.SelectedCellOccupied | app.py:149-154 | The selection admits a row of a cell if and only if the filtered rows contain a row of that cell. |
| Dashboard.HeatmapOfSelection | app.py:149-168 | Pivot cell (R, C) of the rendered views exists if and only if the selection admits a row with Region R and Category C, and then equals the Sales sum of the shown rows in that cell. |
| Dashboard.UpdateGraphs | app.py:141-175 | No stored dataset gives empty figures and nothing else does; otherwise the monthly, per-region and pivot totals each add up to the total Sales of the shown rows, every month and region bucket holds the Sales sum of its key, and the product chart has at most ten entries in non-increasing order. |

## Left out

- Decoding the data URL, base64, and the CSV and Excel readers (app.py:89-96) are library I/O. They are the `decode` parameter. A malformed data URL or a reader error is `decode` returning `None`.
- Date parsing (`pd.to_datetime`) is the `parse` parameter. Its exact accepted formats are not modelled.
- The JSON round trip of the dataset through the hidden page element (app.py:113, 145-146) is modelled as passing the rows unchanged. `pd.read_json` infers column types again, so text cells that look numeric come back as numbers: Product cells "007" and "7" would merge into one product, and a Region "1" would no longer equal the string option "1". That effect is not modelled.
- The page layout, callback wiring, server start and the printed error message (app.py:11-82, 116, 130-140, 179-180) are framework glue and output.
- Plotly figure construction is not modelled; the model computes only the tables that feed the figures. Pie percentages are not modelled.
- Sales are whole numbers. Floating-point Sales, and missing Product or Sales cells (which the cleaning step does not drop), are not modelled.
- Upload.UpdateData: the file name is always a string. A missing file name, which would make the substring test raise, is not modelled. Neither are numeric Region or Category cells.
- Filtering.DefaultShowsYear2023: it requires every stored date to have a month in 1..12 and a day in 1..31. The model takes `parse` to return such calendar dates but does not require this of the parameter, so the lemma does not apply to `UpdateData`'s output without that assumption.
- Dates are whole days. The time of day of a timestamp, and the midnight end bound it would imply, are not modelled. A cleared date picker, which would make the comparison raise, is not modelled either.
- Dashboard.UpdateGraphs: the monthly trend has one bucket per (year, month) that occurs in the shown rows. Pandas' month-end grouper also emits zero rows for empty months in between; those are not modelled.
- Aggregation.GroupSum: buckets are listed in order of first appearance. Pandas lists group keys sorted. The totals per key are the same either way.
- Aggregation.TopK: the contract states only that no bucket left out is larger than a kept one. It does not say which of several buckets with equal totals is kept. Pandas decides such ties by the order of its sorted group keys; the model's insertion sort places each bucket after every earlier bucket with an equal total.
- Dashboard.TopProducts: the same tie-breaking caveat as Aggregation.TopK applies.
