# Baseline compliance dashboard: the record pipeline

This project models the data logic of a one-page compliance dashboard
(`app_compliance.py`). Each time the page reruns, the dashboard:

1. reads every `.csv` file of its working folder, plus an uploaded file if
   there is one;
2. concatenates the tables and drops exact duplicate rows;
3. builds one summary row per `(Hostname, OS)` pair: the pass count, the
   number of controls, the status (`comply` when every check passed,
   `not_comply` otherwise) and the ratio text `"pass/total"`;
4. keeps the summary rows whose OS and status are both checked in the sidebar;
5. counts the kept rows per status for the distribution chart;
6. resolves the table selection. When a host is selected, it shows every raw
   row of that host and the counts of their `Result` values.

Steps 1–2 are written as methods with loops (`Ingestion.LoadTables` walks the
folder listing; `Ingestion.DropDuplicates` removes duplicates in one pass).
Each is proved against a specification function. Steps 3–6 are functions.
Lemmas state what each function's result means. `Dashboard.RunPass` is one
whole pass.

How the model stands in for the libraries and the outside world:

- Parsing a CSV file is the parameter `read: string -> Table`.
- The folder listing is a parameter `names` in listing order.
- The uploaded file is an `Option<Table>`.
- The sidebar checkboxes are two sets.
- The table widget's selection is its list of selected row positions.
- A raw row is `Row(hostname, os, result, extra)`. `extra` carries the other
  columns, so rows are duplicates only when every column is the same.

Points where the model follows the code rather than its description:

- Status is computed from "every lower-cased Result is pass" (line 47), not
  from comparing the two counts. `Aggregation.SummaryRowStatus` proves that the
  two rules agree.
- `groupby` (line 42) sorts its keys, so the summary lists its rows by
  Hostname and then by OS, comparing strings by code point as Python does
  (`Aggregation.Summary`, `Aggregation.SummaryInGroupbyOrder`).
- The detail header (status, ratio, control count) comes from the first
  filtered summary row with the selected Hostname (`.unique()[0]`, lines
  138-141). Because of the sorted order, that is the host's filtered row with
  the least OS (`Presentation.HeaderIsLeastOs`). It is not necessarily the
  selected row. The two agree when the host has only one filtered row
  (`Presentation.HeaderOfUniqueHost`).
- The detail rows cover the host under every OS (line 143). So the control
  count shown in the chart's centre can be smaller than the number of detail
  rows. `Presentation.DrillDownCoversGroup` states the bound, and the
  equality when the host has only one OS.
- The per-host `Result` counts compare values as written. There is no
  lower-casing, unlike the aggregation.
- `if selected_host:` treats an empty Hostname as "no host selected".
- A selected position past the end of the filtered table (`iloc` raising
  `IndexError`) is the outcome `SelectionOutOfRange`.

## Model

| member | source | states |
|---|---|---|
| Ingestion.LoadTables | app_compliance.py:19-30 | the loop collects exactly the tables of the ".csv" entries, in listing order, followed by the upload when there is one |
| Ingestion.LocalTables | app_compliance.py:22-25 | every folder table is the parsed file of a listing entry whose name ends in ".csv", and every such entry's table is among them |
| Ingestion.LocalTablesCount | app_compliance.py:22-25 | one table per listing entry whose name ends in ".csv" |
| Ingestion.LoadedTables | app_compliance.py:22-30 | the loaded tables are the folder's tables and the uploaded one, if any, and nothing else |
| Ingestion.NothingLoaded | app_compliance.py:27-35 | nothing is loaded exactly when no entry is a CSV file and nothing was uploaded |
| Ingestion.FlattenAppend | app_compliance.py:37 | concatenating two lists of tables concatenates their rows |
| Ingestion.Flatten | app_compliance.py:37 | a row is in the concatenation exactly when it is in one of the tables |
| Ingestion.DropDuplicates | app_compliance.py:38 | the in-place deduplication loop leaves each distinct row once, at its first occurrence |
| Ingestion.CombinedRows | app_compliance.py:37-38 | a row is in the combined, deduplicated table exactly when it is in one of the loaded tables |
| Ingestion.RedundantUpload | app_compliance.py:27-38 | uploading a file whose rows are all already loaded leaves the combined table unchanged |
| Ingestion.DoubledTables | app_compliance.py:37-38 | loading every table twice gives the same combined table as loading it once |
| Collections.Distinct | app_compliance.py:38 | the result has no duplicates and the same elements as the input |
| Collections.DistinctOfNoDuplicates | app_compliance.py:38 | a table without duplicates is left unchanged |
| Collections.DistinctIdempotent | app_compliance.py:38 | dropping duplicates twice is dropping them once |
| Collections.DistinctAbsorbs | app_compliance.py:37-38 | appending rows that are already present does not change the deduplicated table |
| Collections.DistinctOfDoubled | app_compliance.py:37-38 | a table concatenated with itself deduplicates to the table's own deduplication |
| Collections.DistinctIsSubsequence | app_compliance.py:38 | the kept rows stay in their original order |
| Collections.Filter | app_compliance.py:66 | a boolean mask keeps exactly the elements that satisfy it, with all their copies |
| Collections.FilterIsSubsequence | app_compliance.py:66 | a mask keeps the selected elements in their original order |
| Collections.FilterKeepsAll | app_compliance.py:66 | a mask that every element satisfies keeps everything |
| Collections.FilterAllIff | app_compliance.py:45-47 | a mask keeps at most every element, and keeps every element exactly when every element satisfies it |
| Collections.FilterMonotone | app_compliance.py:143 | a weaker mask keeps at least as many elements |
| Collections.FilterAgree | app_compliance.py:143 | two masks that agree on every element keep the same elements |
| Collections.Occurrences | app_compliance.py:77 | the element-by-element count of a value is its multiplicity, at most the length, and positive exactly when the value occurs |
| Collections.ValueCounts | app_compliance.py:77 | the tally lists each distinct value once, with its number of occurrences, which is at least one |
| Collections.ValueCountsTotal | app_compliance.py:79 | the counts of a tally add up to the number of tallied elements |
| Text.Lower | app_compliance.py:45 | lower-casing keeps the length, turns each upper-case ASCII letter into its lower-case letter and changes nothing else |
| Text.IsPass | app_compliance.py:45 | a Result counts as a pass exactly when it is "pass" in any mix of letter cases |
| Text.NatToString | app_compliance.py:54 | the decimal text of a count is a non-empty string of digits without a leading zero |
| Text.ParseNatToString | app_compliance.py:54 | reading back the decimal text of a count gives the count |
| Text.Ratio | app_compliance.py:54 | the ratio "pass/total" reads back as exactly its two counts |
| Records.Status.Label | app_compliance.py:47 | a status is shown as "comply" or "not_comply", and as "comply" exactly when it is comply |
| Records.LabelsDiffer | app_compliance.py:47 | two statuses have the same label exactly when they are the same status |
| Aggregation.Summarize | app_compliance.py:43-54 | a group's summary row carries its pair, its size as total_controls, its passing rows as pass_count (at most the size), comply exactly when the counts are equal, and a ratio that reads back as the two counts |
| Aggregation.Summary | app_compliance.py:41-55 | the summary rows come in increasing (Hostname, OS) order, each the summary of its own group |
| Aggregation.SummaryInGroupbyOrder | app_compliance.py:42 | any increasing list of the table's (Hostname, OS) pairs is the summary's list of pairs, so the order is the sorted order of `groupby` |
| Aggregation.SummaryOnePerKey | app_compliance.py:41-55 | the summary has exactly one row for each (Hostname, OS) pair of the combined table and no others |
| Aggregation.SummaryRowIsItsGroup | app_compliance.py:41-55 | every summary row is the aggregate of the rows carrying its own (Hostname, OS), and that pair occurs in the table |
| Aggregation.GroupSize | app_compliance.py:46 | a group has as many rows as the table has rows with its key |
| Aggregation.AllPassIffCounted | app_compliance.py:45-47 | the pass count is at most the group size, and every row passes exactly when the pass count equals the group size |
| Aggregation.GroupAllPass | app_compliance.py:47 | a group passes throughout exactly when every table row with its key passes |
| Aggregation.SummaryRowCounts | app_compliance.py:41-55 | total_controls is the number of rows with the pair and at least 1; pass_count is the number of those that pass, at most total_controls; the ratio is the two decimal counts joined by "/" |
| Aggregation.SummaryRowStatus | app_compliance.py:41-48 | status is comply exactly when every row with the pair passes, which is exactly when pass_count equals total_controls |
| Aggregation.SummaryRatioReadsBack | app_compliance.py:54 | every summary row's ratio reads back as its pass count and its number of controls |
| Filtering.FilterSummary | app_compliance.py:66 | a summary row is kept exactly when its OS and its status are both selected, with its multiplicity; nothing is kept when either selection is empty |
| Filtering.FilterSummaryIsSubsequence | app_compliance.py:66 | the filtered summary is a subsequence of the summary |
| Filtering.FilterSummaryKeepsOrder | app_compliance.py:66 | filtering an increasing summary leaves it increasing in (Hostname, OS) |
| Filtering.OsOptions | app_compliance.py:56 | the OS checkboxes are the OS values of the summary, each offered once |
| Filtering.StatusOptions | app_compliance.py:57 | the status checkboxes are the statuses of the summary, each offered once |
| Filtering.DefaultSelectionKeepsAll | app_compliance.py:56-66 | with every offered checkbox checked, as by default, the filter keeps the whole summary |
| Presentation.StatusCounts | app_compliance.py:77-79 | each status of the filtered summary is listed once with its number of rows, and the counts add up to total_hosts, the number of filtered rows |
| Presentation.HostDetails | app_compliance.py:143 | the detail rows are exactly the combined rows with the selected Hostname, under any OS, with their multiplicities |
| Presentation.ResultCounts | app_compliance.py:150 | each Result value of the detail rows is listed once with its number of rows, and the counts add up to the number of detail rows |
| Presentation.FirstWithHost | app_compliance.py:138-141 | the header row is the first filtered row with the selected Hostname |
| Presentation.SelectHost | app_compliance.py:115-150 | a host is selected exactly when the first selected position is in range and its Hostname is non-empty; an out-of-range position is its own outcome; a selected host's details are its combined rows, in order; its Result counts are the tally of the details and add up to their number; its header status, ratio and control count come from the first filtered row with its Hostname |
| Presentation.FirstRowHasLeastOs | app_compliance.py:138-141 | in a list sorted by (Hostname, OS), the first row of a host has an OS below that of every other row of the host |
| Presentation.HeaderIsLeastOs | app_compliance.py:138-141 | a selected host's header shows the status, ratio and control count of its filtered row with the least OS |
| Presentation.HeaderOfUniqueHost | app_compliance.py:138-141 | when no other filtered row has the selected Hostname, the header shows the selected row's status, ratio and control count |
| Presentation.DrillDownCoversGroup | app_compliance.py:126-143 | the detail rows of a summary row's host are at least as many as that row's controls, and exactly as many when the host has rows under one OS only |
| Presentation.Render | app_compliance.py:41-150 | the outcome carries the summary of the combined table; the pass stops with the empty-filter outcome exactly when the filtered summary is empty, as it is for an empty table; otherwise the status counts are the tally of the filtered rows, total_hosts is the number of filtered rows, at least one, and the view is the selection resolved on the filtered rows |
| Dashboard.RunPass | app_compliance.py:10-150 | the pass ends with the no-data outcome exactly when no entry is a CSV file and nothing was uploaded; otherwise its outcome is the rendering of the deduplicated concatenation of the loaded tables |

## Left out

- User-interface calls are not modelled. This covers the page set-up, titles,
  `st.write` messages, the file uploader widget, the sidebar widgets, the
  table widgets and session state (lines 12-16, 59-63, 117-121, 129-133,
  146-148). The checkboxes are two input sets and the table selection is a
  list of positions.
- The folder listing and CSV parsing (`os.listdir`, `pd.read_csv`) are
  parameters. A listing entry that is a directory, or a file that fails to
  parse, is not modelled.
- Charts are not modelled: the Plotly figures, colour maps, percentage labels
  and centre annotations (lines 84-113, 153-181). This is rendering, and the
  percentages are floating point.
- Re-indexing the displayed tables from 1 is not modelled (lines 72-74,
  144-145). Positions in the model count from 0, as `iloc` does.
- The order of `value_counts` (by count, descending) is not modelled: the
  status and Result tallies list values in order of first appearance. Only
  the charts read these tallies, and their counts are the same in either
  order.
- Missing values are not modelled. In the library, empty CSV cells become
  missing values and are dropped from groups, and a missing `Result` never
  counts as a pass. Tables whose column sets differ are also not modelled:
  every table is assumed to have the same columns.
- When every loaded file has a header but no rows, the library most likely
  fails when it adds the ratio column. The model instead gives an empty
  summary and the empty-filter outcome.
- Text.Lower: lower-cases ASCII letters only, not all of Unicode like
  Python's `str.lower`. For the comparison with "pass" the two agree.
- `host_tctrls` (line 141) is not claimed to equal the number of detail rows.
  The code does not promise it when one Hostname appears under several OS
  values. Only the bound in `Presentation.DrillDownCoversGroup` is
  stated.
