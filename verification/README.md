# Output CSV viewer: file indexer and column presenter

This Dafny project models the logic of `app.py`, a single-page CSV viewer that does not depend on its user interface. It has two parts.

- **File indexer.** The page lists the CSV files in the output folder whose names end in `YYYY-MM-DD.csv`. It groups them by that date and offers the dates newest first. Within one date it offers the files ordered by lower-cased name. A missing folder, or a folder with no dated files, stops the page.
- **Column presenter.** Unless "Show all columns" is ticked, the page keeps the preferred columns the file has, in preferred order, and reports the preferred columns that are absent. In both modes it relabels `1M`/`3M`/`6M`/`1Y` as `… Performance`. It previews at most "Max rows to show" rows (10 to 500). The download gets the whole transformed table.

Modules:

- `Wrappers`: `Option` and `Result`.
- `Text`: ASCII digits and lower-casing, and Python's `<` on strings (lexicographic by code point) with its order lemmas.
- `Sorting`: Python's `sorted(..., key=...)` as a stable insertion sort. It proves the output is a permutation and sorted by key. It also proves stability (ties stay in name order), and proves `reverse=True` on distinct items.
- `DateSuffix`: the regular expression `(\d{4}-\d{2}-\d{2})\.csv$` with IGNORECASE, written as fourteen character classes. `Search` is a left-to-right scan like `re.search`. `MatchDate` is the closed form; `Search` is proved to agree with it, and both are proved equal to a position-by-position description.
- `Indexer`: the filter, the sorted `csv_paths`, the grouping loop, `available_dates`, `files_for_date` and the scan's two stop conditions.
- `Presenter`: `available_columns`, `missing_columns`, the rename map, `head(show_rows)` and the download table.
- `Viewer`: one run of the page. The two drop-down choices and the CSV reader are parameters. The early stops are `Outcome` variants.

Two facts shape the model:

- The date is the ten characters `YYYY-MM-DD` before `.csv`.
- Relabelling (app.py:99-101) runs whether or not "Show all columns" is ticked.

## Model

| member | source | states |
|---|---|---|
| DateSuffix.MatchDateSpec | app.py:10 | A name is accepted iff it ends with ten characters shaped `DDDD-DD-DD` (ASCII digits, dashes at 4 and 7) followed by `.csv` in any case. The extracted date is exactly those ten characters. |
| DateSuffix.AnyDateShapeAccepted | app.py:10 | Any date-shaped string followed by a `.csv` extension is accepted and returned as the date, whatever precedes it. There is no calendar validation. |
| DateSuffix.NoCalendarCheck | app.py:10 | `report-2024-13-40.csv` yields `2024-13-40`, and an upper-case `.CSV` extension is accepted. |
| DateSuffix.ShortDatesRejected | app.py:20 | `notes.csv` and `report-2024-1-1.csv` are not accepted. |
| DateSuffix.Search | app.py:29-32 | Trying start positions from the left finds a match iff the name has a date suffix. It returns the same group 1 as the closed form, and that group is date-shaped. |
| Indexer.Dated | app.py:20 | The kept names are exactly the input names the date-suffix search accepts. |
| Indexer.GroupOrder | app.py:27-33 | The dict's first-seen key order lists each date once, and exactly the dates that have a list. |
| Indexer.GroupSpec | app.py:27-33 | A date has a list iff some path carries it. Its list is exactly the paths with that date, in path order. |
| Indexer.GroupSizesSum | app.py:27-33 | The list sizes over all dates add up to the number of dated paths. |
| Indexer.GroupIsPartition | app.py:27-33 | Every group is non-empty. Every dated path lies in the group of its own date and in no other. Group sizes sum to the number of dated paths. |
| Indexer.MembersSorted | app.py:28-33 | Appending in `csv_paths` order keeps each group in name order. |
| Indexer.GroupDates | app.py:35 | `available_dates` is strictly descending and holds exactly the keys of `date_to_files`. |
| Indexer.GroupsWellFormed | app.py:27-33 | Each group is non-empty and name-sorted, and holds only names whose date is its key. |
| Indexer.BuildIndex | app.py:27-35 | The index built from sorted dated paths is well formed. Each group holds exactly the paths with its date. |
| Indexer.Scan | app.py:15-35 | A missing or non-directory folder stops with `FolderNotFound`, and only then. `NoDatedFiles` is returned iff no globbed name has a date suffix. Otherwise the index is well formed: dates strictly descending, dates equal to the keys, groups non-empty, name-sorted and of one date each. |
| Indexer.ScanContents | app.py:20-33 | After a successful scan, each group is exactly the globbed names carrying that date. Every dated name's date is among `available_dates`. |
| Indexer.FilesForDate | app.py:43 | `files_for_date` is a permutation of the date's group, of the same non-zero length. It is ascending by lower-cased name, and names equal after lower-casing keep name order. |
| Indexer.DefaultDate | app.py:35-41 | The first offered date is a key of the index and is not less than any other key. |
| Sorting.SortBy | app.py:43 | `sorted(xs, key=k)` returns a permutation of `xs` in ascending order of `k`. |
| Sorting.StableSortKeepsTies | app.py:43 | Sorting a name-ordered list by a key leaves items with equal keys in name order. |
| Sorting.SortDescendingSpec | app.py:35 | `sorted(keys, reverse=True)` on distinct keys is a permutation, strictly descending, with the greatest key first. |
| Presenter.AvailableColumns | app.py:91 | The result is a subsequence of the preferred list, in preferred order. It holds exactly the preferred names that are columns of the file. |
| Presenter.MissingColumns | app.py:92 | The result is a subsequence of the preferred list, in preferred order. It holds exactly the preferred names that are not columns of the file. |
| Presenter.SelectionPartitions | app.py:91-92 | Available and missing columns together are a rearrangement of the preferred list. Their lengths add up to its length. |
| Presenter.SubsequenceKeepsDistinct | app.py:97 | Selecting a subsequence of distinct preferred names yields distinct column names. |
| Presenter.RenameColumns | app.py:99-101 | The rename keeps the length and order. It replaces every column that is a key of the label map by its label and leaves every other column unchanged. |
| Presenter.RenameIdempotent | app.py:99-101 | Relabelling twice equals relabelling once when no label is itself a key. |
| Presenter.RenameRoundTrip | app.py:99-101 | Relabelling is undone by the reverse map when no column already carries a label. |
| Presenter.PerformanceRenameRoundTrip | app.py:99-101 | For the four performance labels, relabelling is undone by mapping labels back and is idempotent. |
| Presenter.PerformanceLabelsInvertible | app.py:81-86 | The performance labels are pairwise distinct, are not themselves keys, and are reversed by `PerformanceSources`. |
| Presenter.PreferredColumnsFacts | app.py:70-86 | The preferred columns are distinct, and none of them equals a performance label. |
| Presenter.RenameKeepsDistinct | app.py:99-101 | Distinct columns stay distinct after relabelling when labels are distinct and no column already carries one. |
| Presenter.RenameCanCollide | app.py:99-101 | A file with both `1M` and `1M Performance` gets two columns named `1M Performance` after relabelling. |
| Presenter.RenameKeepsSubsequence | app.py:97-101 | Relabelling the selected columns keeps them a subsequence of the relabelled preferred list, when relabelling sends different preferred names to different names. |
| Presenter.PreferredRelabelInjective | app.py:70-86 | Relabelling sends different preferred columns to different names. |
| Presenter.Head | app.py:109 | The preview keeps the columns and has `min(n, rowCount)` rows. |
| Presenter.Present | app.py:88-114 | The preview has `min(rowCount, showRows)` rows. The download has every row. Both have the same columns. Missing preferred columns are reported exactly when not all columns are shown, and are the preferred names the file lacks. |
| Presenter.PresentAllColumns | app.py:88-101 | With all columns shown, the download keeps every file column in order and still relabels the performance ones. |
| Presenter.PresentPreferred | app.py:90-101 | With preferred columns only, shown plus reported-missing columns count each preferred column once, and the shown columns are distinct. |
| Presenter.PresentPreferredColumns | app.py:90-101 | With preferred columns only, the shown columns are a subsequence of the relabelled preferred list, so they keep preferred order. Every preferred column the file has is shown, under its label if it has one. Every shown column is a preferred column of the file, unchanged if unlabelled, else the label of one. |
| Presenter.DownloadIgnoresRowLimit | app.py:109-114 | The row limit affects neither the download nor the missing-columns notice. |
| Viewer.View | app.py:15-114 | A run stops with `FolderMissing` iff the folder is absent or not a directory. It stops with `NothingToShow` iff no name is dated. Otherwise the file read is option `fileIndex` of `files_for_date` for option `dateIndex` of `available_dates`, and it is a globbed name carrying that date. A read error stops the run with that error; otherwise the file's table is presented. On first render the date is the newest and the file is first by lower-cased name. |
| Viewer.FirstChoices | app.py:41-51 | With both drop-downs at index 0, the date is the greatest key and the file's lower-cased name is not greater than that of any file of the date. |

## Left out

- The Streamlit page, widgets, captions, `st.stop` and re-execution on every interaction (app.py:12-17, 38-68, 109-117) are interface code. The stops appear only as `Viewer.Outcome` variants. The drop-down choices are a `Selection` of positions.
- The folder check and `Path.glob("*.csv")` (app.py:15, 20) are file-system access. `Indexer.Root` stands for the folder: missing, not a directory, or the names the glob yielded. The glob's own filtering and its platform-dependent case sensitivity are not modelled. Names stand for the paths `output/<name>`.
- `csv_paths` is sorted by `Path`. Within one folder on POSIX that is the order of the names, and the model sorts by name. Windows' case-folded path order is not modelled.
- `pd.read_csv` and its exceptions (app.py:59-63) are a foreign parser. The reader is a function parameter of `Viewer.View` returning a table or an error message. A `Table` is its header names plus a row count. Cell values are not modelled.
- The percentage formatting `pd.to_numeric(..., errors="coerce")` and `f"{x:.2f}%"` (app.py:103-107) is floating-point formatting and pandas coercion. It is not modelled. Nor is the failure it meets when relabelling has produced two columns with the same name (see `Presenter.RenameCanCollide`).
- CSV serialisation, UTF-8 encoding, the download file name and the MIME type (app.py:114-116) are library output. The download is modelled as the transformed table.
- `\d` is modelled as the ASCII digits `0`-`9`. Python's `\d` on `str` also matches other Unicode decimal digits, such as Arabic-Indic ones.
- `$` is modelled as the end of the name. Python's `$` also matches before a final newline, but every name the glob `*.csv` yields ends in `.csv`, so that case never reaches the expression.
- `str.lower()` is modelled on ASCII letters only. Other letters are left unchanged.
- `Sorting.SortDescending` is the ascending sort read backwards. That equals `sorted(..., reverse=True)` only for distinct items, and it is applied only to dictionary keys.
- The second, near-duplicate variant of the page is not part of this model. It shows all columns by default and downloads the raw file bytes.
