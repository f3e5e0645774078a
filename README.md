# Duplication report reduction and CSV-to-wiki conversion, modelled in Dafny

This project models the core of two small Python scripts and proves properties of the model.

- `sort-duplicates.py` reads a CPD duplication report.
  - `total_duplication` shortens each file path to the text between its first `../../../` and the next one, or the end of the path.
  - It then merges the report's `duplication` records into one entry per ordered pair of files. Each entry holds the total number of duplicated lines for its pair.
  - `sort_files` orders the rows of percentages by the first file's share.
- `csv2wiki.py` turns each data row of a CSV file into a MediaWiki page.
  - Each non-empty cell becomes one section, titled by its column's header.
  - The last column also becomes a category.
  - Afterwards the script saves a "List of Proposals" table of contents and one empty page per category.

## Modules

- `Sequences` (`sequences.dfy`) holds `Option` and `Dedup`.
  - `Dedup` is the list that "append unless already present" builds.
  - Lemmas say which values `Dedup` keeps, how long it is and in what order.
- `Decimal` (`decimal.dfy`) models Python's `str` on a natural number.
  - It includes a read-back proof, which shows distinct row numbers give distinct titles.
- `Duplication` (`duplication.dfy`) models `total_duplication`.
  - `Split` and `ChopPath` model `str.split('../../../')[1]`.
  - `Merged` folds the records with `Accumulate`, one record at a time. `MergedPairs` and `MergedCounts` give its declarative description: one entry per distinct ordered pair, in first-seen order, holding that pair's total lines.
  - `Reduce` is the same fold with the chopping interleaved, so it stops at the first record whose path cannot be chopped.
  - `AddRecord` is the scan with `break`, proved equal to `Accumulate`.
  - `TotalDuplication` is the record loop, proved equal to `Reduce` and to the merge of the chopped records.
- `FileSort` (`sort_files.dfy`) models `sort_files`.
  - It is a stable insertion sort on the first share.
  - It is proved to be the one stable ascending arrangement of its input.
- `CsvToWiki` (`csv2wiki.dfy`) models the script body as a method `Run` that returns the list of `page.save` calls in order.
  - The wiki is represented only by that list.
  - The result is `Completed(saves)` when the script runs to its end.
  - It is `Crashed(saves)` when a non-empty cell lies beyond the header. `header_array[cell_num]` then raises IndexError after the saves listed.
  - `Expected` is the specification that `Run` is proved against.
  - `AfterRows` folds the data rows into the table-of-contents text, the category list and the saves.
- `CsvToWiki` also holds the inner loops as methods:
  - `ReadHeader` is the header copy;
  - `SaveCell` is one cell;
  - `SaveCells` is the cell loop of one row;
  - `SaveCategoryPages` is the category-page loop.

Where the comment and the code disagree, the model follows the code:

- The comment above `sort_files` (sort-duplicates.py:130-132) says the rows go from highest to lowest percentage. `sorted` with that key sorts in ascending order, and `FileSort` proves ascending order.
- `row_num` counts the header row too, so the first data row's page is `Proposal_1`.

## Model

| member | source | states |
|---|---|---|
| Duplication.FindMarkerFirst | sort-duplicates.py:57 | the search returns a marker position and skips no earlier marker |
| Duplication.ChopPathFails | sort-duplicates.py:57 | `split(...)[1]` raises IndexError exactly when the path contains no `../../../` |
| Duplication.SplitHead | sort-duplicates.py:57 | the first piece of a split runs up to the first marker, or to the end when there is none, and holds no marker |
| Duplication.ChopPathPiece | sort-duplicates.py:57-59 | the chopped path is exactly the text between the first marker and the next marker or the end of the path |
| Duplication.ChopRecord | sort-duplicates.py:53-61 | a record survives chopping exactly when both its paths do; it then carries the two chopped paths and its own `lines` |
| Duplication.ChopAllEach | sort-duplicates.py:51-59 | chopping all records succeeds exactly when each record's succeeds, and then holds each record's chopped form at its own position |
| Duplication.FindPair | sort-duplicates.py:68-69 | the scan finds the first entry for the ordered pair, and no entry before it has that pair |
| Duplication.MergedPairs | sort-duplicates.py:63-82 | the entries list the distinct ordered pairs of the input, one each, in order of first occurrence |
| Duplication.MergedCounts | sort-duplicates.py:75 | each entry's count is the sum of `lines` over all records with its ordered pair |
| Duplication.MergedPairsDistinct | sort-duplicates.py:63-82 | no two entries have the same ordered pair |
| Duplication.MergedCoversInput | sort-duplicates.py:81-82 | every input pair has an entry, every entry's pair occurs in the input, and entries follow first occurrence |
| Duplication.MergedLength | sort-duplicates.py:81-82 | the list is never longer than the input, and equally long exactly when no ordered pair repeats |
| Duplication.ReversedPairsKeptApart | sort-duplicates.py:69 | records for (a, b) and (b, a) give two separate entries |
| Duplication.ReduceFailsOnward | sort-duplicates.py:57-59 | once a record's path cannot be chopped, the whole reduction fails |
| Duplication.ReduceIsMergedChop | sort-duplicates.py:49-85 | the record-by-record reduction is the merge of the chopped records, or fails when any chop fails |
| Duplication.AddRecord | sort-duplicates.py:67-82 | the scan with `break` adds the record's lines to the first entry for its pair, or appends a new entry |
| Duplication.TotalDuplication | sort-duplicates.py:49-85 | the loop returns the merge of the chopped records, or `None` (IndexError) when some path has no marker |
| FileSort.Insert | sort-duplicates.py:135 | inserting into a sorted list keeps it sorted and adds exactly the one row |
| FileSort.SortFiles | sort-duplicates.py:133-136 | the result is sorted ascending by the first share and is a permutation of the input |
| FileSort.SortFilesStable | sort-duplicates.py:135 | rows with the same first share keep their input order |
| FileSort.SortedUnique | sort-duplicates.py:135 | two sorted lists with the same rows per share, in the same order, are equal |
| FileSort.SortFilesSorted | sort-duplicates.py:135 | an already sorted list comes back unchanged |
| FileSort.SortFilesCharacterized | sort-duplicates.py:133-136 | the result is the only sorted arrangement that keeps each share's rows in input order |
| Decimal.FromNat | csv2wiki.py:46 | `str(row_num)` is a non-empty string of digits with no leading zero |
| Decimal.ToNatFromNat | csv2wiki.py:46 | reading the digits back gives the number |
| Decimal.FromNatInjective | csv2wiki.py:46 | distinct numbers give distinct digit strings |
| Decimal.DigitRunOf | csv2wiki.py:46 | in `str(row_num) + ': '` the run of digits ends exactly where the number's digits do |
| Sequences.Dedup | csv2wiki.py:64-65 | the "append unless present" list is no longer than its input, holds only input values and has no repeats |
| Sequences.DedupMembers | csv2wiki.py:64-65 | a value is in the list exactly when it occurs in the input |
| Sequences.DedupSnoc | csv2wiki.py:64-65 | a value already present leaves the list unchanged; a new one is appended at the end |
| Sequences.DedupLength | sort-duplicates.py:81-82 | nothing is dropped exactly when nothing repeats |
| Sequences.DedupFirstSeenOrder | csv2wiki.py:64-65 | the kept values come in order of first occurrence |
| CsvToWiki.FirstBadCell | csv2wiki.py:52-72 | finds the first non-empty cell with no header column, or reports that the whole row fits |
| CsvToWiki.FirstBadCellAt | csv2wiki.py:52-72 | that search stops at the first such cell |
| CsvToWiki.FirstBadRow | csv2wiki.py:32-78 | finds the first data row with such a cell, and every row before it fits |
| CsvToWiki.FirstBadRowAt | csv2wiki.py:32-78 | that search stops at the first such row |
| CsvToWiki.FirstBadRowNone | csv2wiki.py:32-78 | when every data row fits, that search finds nothing |
| CsvToWiki.CellSaves | csv2wiki.py:52-72 | a row gives no more saves than it has cells |
| CsvToWiki.CellSavesEach | csv2wiki.py:46-72 | every save of a row is a section save of page `Proposal_<row_num>: <first cell>`, numbered by a non-empty cell's column, titled by that column's header and holding that cell's text |
| CsvToWiki.CellSavesIncreasing | csv2wiki.py:42-76 | a row's saves come in increasing column order, so each column is saved at most once |
| CsvToWiki.CellSavesCover | csv2wiki.py:52-72 | every non-empty cell has a save for its column |
| CsvToWiki.RowCategory | csv2wiki.py:52-55 | a row names a category exactly when its last cell is non-empty, and the category is that cell |
| CsvToWiki.AddCategory | csv2wiki.py:62-65 | the old list is a prefix of the new one, which is at most one longer; a list without repeats stays without repeats; the new list holds exactly the old values and the row's category |
| CsvToWiki.AfterRowsCategories | csv2wiki.py:62-65 | the category list is the non-empty last cells with repeats dropped |
| CsvToWiki.CategoriesExact | csv2wiki.py:52-65 | categories have no repeats, are exactly the non-empty last cells of the data rows, and come in first-seen order |
| CsvToWiki.TitleInjective | csv2wiki.py:46 | a page title determines both the row number and the first cell |
| CsvToWiki.CrashIff | csv2wiki.py:72-74 | the script stops with IndexError exactly when some data row has a non-empty cell beyond the header |
| CsvToWiki.HeaderOnly | csv2wiki.py:33-38 | a header alone produces nothing but an empty table-of-contents page |
| CsvToWiki.SingleColumn | csv2wiki.py:44-67 | in a one-column table, the only cell is also the last one: it is saved as a category tag and gets a category page |
| CsvToWiki.ReadHeader | csv2wiki.py:35-37 | `header_array` is a copy of the first row |
| CsvToWiki.SaveCell | csv2wiki.py:43-76 | one cell: column 0 sets the title and adds the table-of-contents line; a non-empty cell gives one section save, or crashes when it has no header; the last cell adds its category when new |
| CsvToWiki.SaveCells | csv2wiki.py:42-76 | the cell loop gives the row's table-of-contents line, its section saves and its category, or crashes after the saves of the cells before the first faulty one |
| CsvToWiki.SaveCategoryPages | csv2wiki.py:84-88 | appends one empty category page per category, in order |
| CsvToWiki.Run | csv2wiki.py:23-88 | the script's saves in order: the row pages, then the table of contents, then the category pages, or the saves made before the IndexError |

## Left out

- `file_len`, `find_filesizes`, `percentage_duplicated`, `prettyprint` and `main` in sort-duplicates.py are not part of this model. They read files, take command-line arguments, do float arithmetic and print.
- `FileSort.SortFiles`: the shares are exact reals. Python's `round(float, 2)` is not modelled, because only the order of the keys matters to the sort.
- The model follows the scripts as run under Python 2. Under Python 3, `csv.reader` over a file opened with `'rb'` (csv2wiki.py:28-29) fails on the first row, and from Python 3.3 on the default (C) `Element` has no `_children`, so sort-duplicates.py:53 raises AttributeError.
- XML parsing of the report is not modelled. Records enter already parsed, as `(path1, path2, lines)`.
- Counts are natural numbers. The script's mix of `str` from the XML and `int` after the first addition is not modelled. This means a pair seen only once keeps its count as a string in the script.
- CSV parsing (`csv.reader`) is not modelled. Rows enter already split into cells.
- All `mwclient` interaction is not modelled: login, page lookup, and what the wiki does with a save. Each `page.save` call is recorded as one `Save` in order.
- The fallback `page.save(..., section='new')` after an `errors.APIError` is not modelled. Every save is taken to succeed.
- `print` calls are not modelled.
- `cell is not ""` is modelled as `cell != ""`. Python's identity test on strings depends on interning, which the model does not represent.
- An uncaught IndexError is modelled as a returned value: `None` in `TotalDuplication` and `Crashed(saves)` in `Run`. The toc page and the category pages are not saved after it, so `Crashed` carries only the earlier saves.
- The merge scan and the cell body are separate methods, `AddRecord` and `SaveCell`. Their behaviour is that of the loop bodies in the scripts.
