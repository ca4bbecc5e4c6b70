# Git history mining pipeline: a Dafny model

This project models the three data-shaping stages of a small Git analysis pipeline written in
Python:

- **Commit extractor** (`Scripts/GitAnalyzer.py`). `sanitize_message` removes line breaks,
  commas and double quotes from a commit message. `build_commits` turns each commit the mining
  library yields into one commit record. `build_file_commits` turns it into one record per
  modified file. A commit whose attributes cannot be read is skipped, and the traversal goes on.
- **Author resolver** (`Scripts/GitAuthors.py`). `identify_authors` joins the author and
  committer columns of the commit table into one list of (name, email, offset) identities,
  drops duplicate rows, converts the offset from seconds to hours, and guesses a location with
  `guess_city`.
- **File-data merger** (`Scripts/GitDataMerger.py`). `generate_merged_file_data` prepares the
  file-change table and the file-size table, inner-joins them on `relative_path`, and
  consolidates the duplicated columns.

The modules follow the files:

- `sanitizer.dfy` and `analyzer.dfy` model `GitAnalyzer.py`.
- `authors.dfy` models `GitAuthors.py`.
- `merger.dfy` models `GitDataMerger.py`.
- `wrappers.dfy` holds the `Option` and `Result` types.

How each part is modelled:

- **The mining library.** It is an input: a sequence of `Commit` values. Every attribute the
  code reads inside its `try` block is an `Option`, and `None` means that the read raises. The
  hash is read before the `try`, and the model takes that read never to raise: a raise there
  is outside the `try` and would end the whole traversal. So the hash is a plain string.
- **The loops.** The loops of `build_commits` and `build_file_commits` are `while` loops in
  methods. Each method is proved equal to a recursive function on the traversal, and the
  properties are proved about that function.
- **Data frames.** A data frame is a `Table`: a set of column names and a sequence of rows,
  where each row maps a column name to a `Cell` (missing, or a text).
- **pandas calls that raise.** A call that raises `KeyError` or `MergeError` returns a
  `Failure`.
- **`generate_merged_file_data`.** It is a method that calls one step after another, as the
  source does in place. The file-change table gets a rename of `Unnamed: 0` to
  `File_Commit_ID`, a copy and a `fillna`. The size table gets a rename of `Unnamed: 0` to
  `File_ID` (`Scripts/GitDataMerger.py:25`), a `replace` and a `drop`. Then come the `merge`,
  a `drop` and a rename. The method `JoinPrepared` holds the last three steps. `pd.merge` is a
  library call with no loop of the program's own, so it is the function `Merge`.

The `'.'` to `''` rewrite changes column `path` (`Scripts/GitDataMerger.py:28`), while the join
key is `relative_path` (`Scripts/GitDataMerger.py:34`), so it never changes a key.
`Merger.PrepareFileSizes` states what happens to each size column. `root` and `fullpath` are
dropped, `File_ID` holds the `Unnamed: 0` cells, and a root `path` is rewritten. The key and
every column other than these five keep their cells.

## Model

| member | source | states |
|---|---|---|
| Sanitizer.SanitizeMessage | Scripts/GitAnalyzer.py:7-15 | Every character of a sanitised message is a character of the message or the space that replaces a line break |
| Sanitizer.SanitizeMatchesRef | Scripts/GitAnalyzer.py:7-15 | The four `replace` passes in order equal a one-pass definition: a CR LF pair becomes one space, a lone LF a space, commas and double quotes vanish, and every other character (a bare CR included) is kept in place |
| Sanitizer.NoForbiddenChars | Scripts/GitAnalyzer.py:11-14 | A sanitised message contains no line feed, comma or double quote |
| Sanitizer.SanitizeNeverGrows | Scripts/GitAnalyzer.py:11-14 | Sanitising never makes a message longer |
| Sanitizer.SanitizeIdempotent | Scripts/GitAnalyzer.py:7-15 | Sanitising a sanitised message changes nothing |
| Sanitizer.ReplaceNeverGrows | Scripts/GitAnalyzer.py:11-14 | `str.replace` with a replacement no longer than the pattern never makes the string longer |
| Sanitizer.Replace | Scripts/GitAnalyzer.py:11-14 | Every character of a `replace` result comes from the input or from the replacement |
| Sanitizer.ReplaceRemoves | Scripts/GitAnalyzer.py:13-14 | Replacing a single character by text without it removes every occurrence |
| Sanitizer.ReplaceAbsent | Scripts/GitAnalyzer.py:11 | A pattern holding a character the string lacks changes nothing (a message without LF is untouched by the CR LF pass) |
| Analyzer.Join | Scripts/GitAnalyzer.py:60-61 | `', '.join` gives "" for no texts, starts with the first text, and is as long as the texts plus one separator per gap |
| Analyzer.JoinSnoc | Scripts/GitAnalyzer.py:60-61 | One text joins to itself, and appending a text to a non-empty list appends one separator and that text to the join |
| Analyzer.CollectNewPaths | Scripts/GitAnalyzer.py:28-31 | The loop collects exactly `NewPaths`: the new paths that are not `None`, in modified-file order |
| Analyzer.NewPathsMembers | Scripts/GitAnalyzer.py:29-31 | A path is collected iff some modified file has it as its new path |
| Analyzer.NewPathsConcat | Scripts/GitAnalyzer.py:29-31 | Collecting distributes over concatenation of the file list, so order is kept |
| Analyzer.CommitRecordFiles | Scripts/GitAnalyzer.py:28-31 | A readable commit's record has a `files` column that is the ", "-join of exactly the non-`None` new paths |
| Analyzer.MakeCommitRecord | Scripts/GitAnalyzer.py:34-67 | The record is built column by column from the commit: its hash, its sanitised message (so no line feed, comma or double quote), the author's and committer's name, e-mail, date and offset, the two flags, the insertions and deletions with `net_lines` their difference, the file count, the ", "-joined branches and new paths, the modified files and the three maintainability scores |
| Analyzer.CommitRecordOf | Scripts/GitAnalyzer.py:24-74 | A commit has a record exactly when every attribute read inside the `try` can be read, and otherwise the `except` skips it. The record carries the commit's hash and the ", "-join of its new paths |
| Analyzer.BuildCommits | Scripts/GitAnalyzer.py:17-76 | The loop returns the commit table: the records of the readable commits in traversal order. Every record has `net_lines == num_inserts - num_deletes`, and there are at most as many records as commits |
| Analyzer.CommitTable | Scripts/GitAnalyzer.py:21-74 | The commit table has at most one record per commit, and every record satisfies `net_lines == num_inserts - num_deletes` (line 58) |
| Analyzer.CommitTableConcat | Scripts/GitAnalyzer.py:22-74 | The table of a concatenated traversal is the concatenation of the tables |
| Analyzer.CommitSkipped | Scripts/GitAnalyzer.py:71-74 | A commit with an unreadable attribute adds no record, and the records before and after it are unchanged |
| Analyzer.CommitKept | Scripts/GitAnalyzer.py:25-69 | A readable commit adds exactly its own record, between its neighbours' records |
| Analyzer.BuildFileCommits | Scripts/GitAnalyzer.py:114-173 | The nested loops return the file-change table. It has one record per modified file of each readable commit, and every record has `net_lines == num_inserts - num_deletes` |
| Analyzer.AppendFileRecords | Scripts/GitAnalyzer.py:142-167 | The inner loop appends one record per modified file, in order |
| Analyzer.MakeFileCommitRecord | Scripts/GitAnalyzer.py:124-165 | The record is built column by column: the commit's hash, sanitised message (so no line feed, comma or double quote), author and committer fields, flags, insertions and deletions with `net_lines` their difference and ", "-joined branches, then the file's `filename`, `old_path` and `new_path`, and the project's name and path |
| Analyzer.FileRecordsOf | Scripts/GitAnalyzer.py:122-171 | A commit with an unreadable commit-level attribute contributes no record, because the `except` skips it. A readable one contributes one record per modified file, and the k-th is the record of the k-th file |
| Analyzer.FileBlock | Scripts/GitAnalyzer.py:142-167 | A commit's block has one record per modified file, and each satisfies `net_lines == num_inserts - num_deletes` |
| Analyzer.FileCommitTable | Scripts/GitAnalyzer.py:121-171 | The table length equals the number of modified files over the readable commits, and every record satisfies `net_lines == num_inserts - num_deletes` (line 158) |
| Analyzer.FileCommitTableConcat | Scripts/GitAnalyzer.py:121-171 | Traversal order is kept in the file-change table |
| Analyzer.FileBlockAt | Scripts/GitAnalyzer.py:142-167 | The k-th record of a commit's block belongs to its k-th modified file |
| Analyzer.CommitContribution | Scripts/GitAnalyzer.py:121-171 | A commit contributes, between its neighbours' records, nothing when a commit-level read raises. Otherwise it contributes one record per modified file, in order |
| Analyzer.FileRecordsCarryCommit | Scripts/GitAnalyzer.py:143-165 | A commit's file records differ only in `filename`, `old_path` and `new_path`, which are those of their file. The other columns agree with the commit's row in the commit table |
| Authors.GuessCity | Scripts/GitAuthors.py:3-79 | The corrected lookup: the sentinel exactly off the table's offsets, a state exactly for US offsets and unmapped ones, and the United States as country for every US offset |
| Authors.GuessCityIsTableLookup | Scripts/GitAuthors.py:10-72 | The chain is a lookup in an independent 19-entry table whose keys are pairwise distinct. Each key yields its entry, and any other offset yields the sentinel |
| Authors.GuessCityExamples | Scripts/GitAuthors.py:10-48 | Melbourne for +10, London for 0 and New York, NY for -5. The offset 11.5 yields the sentinel |
| Authors.IndianapolisOffset | Scripts/GitAuthors.py:50 | Among whole-second offsets, exactly -19080 s (-5.3 h) reaches the Indianapolis branch |
| Authors.GuessCityAsWritten | Scripts/GitAuthors.py:3-79 | As written, the lookup raises exactly for the offsets off the table, and every other offset gets a location with a city and a country that is not the sentinel |
| Authors.UnmappedOffsetRaises | Scripts/GitAuthors.py:73-77 | As written, every offset outside the table raises before the sentinel is set (the 11.5 h offset among them), and every mapped offset returns the corrected lookup |
| Authors.GuessCityTotal | Scripts/GitAuthors.py:73-77 | The corrected lookup is total, gives the sentinel exactly off the table, and never gives an empty city or country |
| Authors.Hours | Scripts/GitAuthors.py:106 | The offset in hours times 3600 is the offset in seconds, and it is negative exactly when the offset in seconds is |
| Authors.DropDuplicates | Scripts/GitAuthors.py:103 | The result holds every row of the input and nothing else, has no row twice, and is no longer than the input |
| Authors.DropDuplicatesOfDistinct | Scripts/GitAuthors.py:103 | A table without duplicates is unchanged |
| Authors.DropDuplicatesAppend | Scripts/GitAuthors.py:103 | A row is kept exactly when no earlier row equals it (first occurrence wins, order kept) |
| Authors.ViewsAt | Scripts/GitAuthors.py:102 | The authors come first in the concatenation, then the committers |
| Authors.IdentifyAuthors | Scripts/GitAuthors.py:94-109 | The result's identities are the deduplicated concatenation. Every author and committer identity appears, only those appear, and none twice. The hours column is the offset divided by 3600, and the location is the corrected lookup of those hours. As written, the first unmapped offset makes `df.apply(guess_city)` (line 109) raise and no table is written |
| Authors.ToAuthorRow | Scripts/GitAuthors.py:106-109 | The row is built column by column from one identity. It keeps the name, e-mail and offset, its hours times 3600 are the offset in seconds, and its location is the corrected lookup of those hours, which is the sentinel exactly for an unmapped offset |
| Authors.NewYorkExampleDedup | Scripts/GitAuthors.py:102-103 | An identity seen as both author and committer of one commit survives once |
| Authors.NewYorkExampleRow | Scripts/GitAuthors.py:106-109 | -18000 s becomes -5.0 h and New York, NY, United States |
| Merger.RenameColumn | Scripts/GitDataMerger.py:13 | The rename moves the column's cells to the new name and keeps every other column. It is the identity when the old name is absent |
| Merger.CopyColumn | Scripts/GitDataMerger.py:16 | The new column equals the source column and the other columns are kept. It is a `KeyError` exactly when the source column is absent |
| Merger.FillNa | Scripts/GitDataMerger.py:19 | No cell is missing afterwards, present cells are unchanged, missing cells become "", and every cell is the filled input cell |
| Merger.ReplaceRootPath | Scripts/GitDataMerger.py:28 | A `path` of "." becomes "", every other `path` is kept, and all other columns are unchanged |
| Merger.DropColumns | Scripts/GitDataMerger.py:31 | Succeeds iff all named columns exist, giving the remaining columns with their cells. Otherwise a `KeyError` names the absent ones |
| Merger.Merge | Scripts/GitDataMerger.py:34 | The merge succeeds exactly when both sides have the key and the joined names are distinct. A missing key is a `KeyError` naming it, and a name clash is a duplicate-name error. On success the columns are the joined columns |
| Merger.JoinRow | Scripts/GitDataMerger.py:34 | The joined row has exactly the joined columns and carries the left key |
| Merger.JoinRowCells | Scripts/GitDataMerger.py:34 | Every left cell sits under its `_x` name, and every non-key right cell under its `_y` name |
| Merger.PairsComplete | Scripts/GitDataMerger.py:34 | Every pair of a left and a right row with equal keys is among the join's pairs |
| Merger.PairsCount | Scripts/GitDataMerger.py:34 | The number of pairs is the sum over left rows of the number of right rows with the same key |
| Merger.InnerJoinCorrect | Scripts/GitDataMerger.py:34 | On tables with the key and distinct joined names, the merge succeeds with well-formed rows, one per pair of rows with equal keys |
| Merger.InnerJoinSound | Scripts/GitDataMerger.py:34 | Every output row is the joined row of a left row and a right row with equal keys, so unmatched rows never appear |
| Merger.InnerJoinComplete | Scripts/GitDataMerger.py:34 | Every pair of rows with equal keys contributes its joined row |
| Merger.InnerJoinCompleteAll | Scripts/GitDataMerger.py:34 | The inner join leaves out no pair of rows with equal keys |
| Merger.NoSuffixClashNamesDistinct | Scripts/GitDataMerger.py:34 | When no column is already named like a suffixed overlapping column, the `_x`/`_y` names never collide |
| Merger.JoinKeepsKey | Scripts/GitDataMerger.py:34 | The key survives the join under its own name |
| Merger.PrepareFileCommits | Scripts/GitDataMerger.py:13-19 | Fails iff `new_path` is absent, with that `KeyError`. Otherwise the index column is renamed, `File_Commit_ID` holds the filled index cells, each row's key is its filled `new_path`, every other column holds the filled input cells, and no cell is missing |
| Merger.PrepareFileSizes | Scripts/GitDataMerger.py:25-31 | Succeeds iff `root` and `fullpath` exist, and otherwise names the absent ones. On success they are gone, `File_ID` holds the index cells, a root `path` is rewritten, and the key and all other columns keep their cells |
| Merger.MergeableOverlap | Scripts/GitDataMerger.py:13-34 | Take a file-change table with its index, `filename` and `new_path` and none of the names the steps add. Take a size table with the six columns the merger reads, whose other columns are neither file-change columns nor names the steps use. Then the prepared size table has `File_ID`, `path`, `filename`, the key and those other columns, only `filename` is shared, and no column is named like a suffixed shared one |
| Merger.MergeableColumnsJoin | Scripts/GitDataMerger.py:13-38 | For such tables both prepared sides have the key and the joined names are distinct. `filename` is the only shared column, and the three columns that consolidation drops or renames exist |
| Merger.StandardMergeable | Scripts/GitDataMerger.py:3-38 | The extractor's file-change table is mergeable with a size table of exactly the six columns the merger reads, and with one that also has a `size` column |
| Merger.ConsolidateColumns | Scripts/GitDataMerger.py:37-38 | Succeeds iff the three dropped columns exist. On success the output `filename` is the joined `filename_y`, every other output column is a joined column with its cells kept, and the key is kept |
| Merger.JoinPrepared | Scripts/GitDataMerger.py:34-38 | On the prepared tables, the join and the consolidation succeed when both sides have the key, the joined names are distinct and the three consolidated columns exist. On success the result has the merged columns and one row per pair of equal keys, in pair order, each with the cells described for `MergedRowsTrace`, and every such pair has its row |
| Merger.MergedOutcome | Scripts/GitDataMerger.py:13-38 | The guarantees of the preparation, join and consolidation steps together give the key as a column of the size table and of the result, the merged columns, the row count, the row of each pair in pair order, and a row for every pair |
| Merger.MergedRowsTrace | Scripts/GitDataMerger.py:16-38 | Every output row comes from one file change and one file whose filled `new_path` and `relative_path` agree. It carries that key and the file's `filename`, and every other carried column holds that file change's filled cell (suffixed `_x` when shared, a file-change `root` or `fullpath` included) or that file's cell (suffixed `_y` when shared, root `path` rewritten) |
| Merger.MergedRowsInPairOrder | Scripts/GitDataMerger.py:16-38 | There is one output row per pair of equal keys. Row p comes from the p-th pair, taken file change by file change and then file by file, and holds that pair's cells as described for `MergedRowsTrace` |
| Merger.MergedRowsComplete | Scripts/GitDataMerger.py:16-38 | Every file change and file whose filled `new_path` and `relative_path` agree have an output row that comes from them, with the cells described for `MergedRowsTrace` |
| Merger.MergedColumnsWithSizeTable | Scripts/GitDataMerger.py:13-38 | For mergeable tables the merged columns are the file-change columns without the index, plus `relative_path`, `path` and every further size column (the sizes themselves) |
| Merger.StandardMergedColumns | Scripts/GitDataMerger.py:13-38 | On the extractor's file-change columns and a size table of the six columns the merger reads, the merged table has the file-change columns without the index, plus `relative_path` and `path` |
| Merger.SizedMergedColumns | Scripts/GitDataMerger.py:13-38 | A `size` column of the size table reaches the merged table under its own name |
| Merger.GenerateMergedFileData | Scripts/GitDataMerger.py:3-42 | Fails with `KeyError` when `new_path` is missing, and otherwise, when `root` or `fullpath` is missing, with a `KeyError` naming the absent ones. On mergeable tables (as described for `MergeableOverlap`) it succeeds with the file-change columns without the index, plus `relative_path`, `path` and the size table's further columns. On success the size table has `root`, `fullpath` and the key, and the columns are exactly the prepared columns joined and consolidated: the index columns and the left `filename` are gone and the key is present. There is one row per (file change, file) pair with equal keys. Row p comes from the p-th such pair, file change by file change and then file by file, and holds its cells. Every such pair has a row that comes from it |

## Left out

- The traversal by the mining library (`Repository(...).traverse_commits()`) and the library's own exceptions are not modelled. The commits are an input sequence, and an unreadable attribute is `None`.
- A per-file attribute that raises inside the file loop (`Scripts/GitAnalyzer.py:29-31`, `142-165`) is not modelled. File attributes are plain values, so a commit's file records are all-or-nothing.
- `build_file_commits_from_commits` (`Scripts/GitAnalyzer.py:79-111`) and its call and `del` in `analyze_repository` (`Scripts/GitAnalyzer.py:191-195`) are not modelled, because as written this path cannot run. It reads dictionary entries as attributes (line 83), records the builtin `hash` (line 85), and reads keys that are never set (lines 90 and 104). `build_file_commits` is modelled instead.
- `analyze_repository` (`Scripts/GitAnalyzer.py:175-206`) is not modelled. It is CSV reading and writing, printing and file-path orchestration, which is I/O.
- All CSV reading and writing and all `print` calls are not modelled. The merger's input is each table as pandas holds it after `pd.read_csv` (`Scripts/GitDataMerger.py:10`, `22`). An empty or NA-like cell is `Missing`, and every other cell is its text. The conversion of numeric text into numbers is not modelled.
- `Scripts/GitAuthors.py:90-91` cut the commit table down to its identity columns, and the `CommitRow` type has only those columns. It assumes the commit table without `pydriller_files`, as the `del` at `Scripts/GitAnalyzer.py:194-195` intends. That `del` is not modelled. The records of `build_commits` carry `pydriller_files` (`Scripts/GitAnalyzer.py:62`), and line 91 does not drop it, so without the `del` it would take part in the comparison of `drop_duplicates` (line 103).
- `guess_city` sets cells on a whole row. The model returns the location only, and a state that is never set is `None`.
- Floating point is not modelled. Offsets in hours are exact reals, so `-19080 / 3600` is exactly `-5.3`. The sign convention of the mining library's offsets is taken as given.
- Dates, time zones in seconds and maintainability scores are carried as values and never interpreted.
- Merger.InnerJoinSound: pandas' row order for an inner join is not claimed. The model orders rows by left row and then by right row. `Merger.MergedRowsInPairOrder` and `Merger.GenerateMergedFileData` fix each row's pair under that order, and whether pandas emits the same order is not claimed.
- Analyzer.Commit: the mining library gives `commit.branches` as a set, so the order in which `', '.join` visits it (`Scripts/GitAnalyzer.py:60`, `138`) depends on the run's string hashing. The model's `branches` sequence stands for that iteration order.
- Merger.RenameColumn: renaming onto a column that already exists is modelled as an overwrite. pandas would keep two columns with one name, which a set of names cannot hold.
- Merger.Merge: the model fails with `Failure(DuplicateColumns)` on any clash of joined names. pandas 2.0 and later raise only when the renamed columns of one side clash among themselves, and earlier versions only warn. A clash between the two sides, for example a left `a_y` next to a shared `a`, gives duplicate column names in pandas, which a set of names cannot hold.
- Merger.GenerateMergedFileData: success and the concrete column set are proved for mergeable tables, whose further size columns are neither file-change columns nor names the steps use. For other inputs the result's columns are still given exactly by `MergedColumns`, and success is not spelled out case by case.
- Merger.GenerateMergedFileData: the `Unnamed: 0` index column that pandas adds on reading is an ordinary column of the input tables.
- The commented-out rename-propagation code at `Scripts/GitDataMerger.py:45-65` is not live code and is not modelled.

## Findings

| source | as written | input that shows it | evidently intended | confidence | as-written member | corrected member |
|---|---|---|---|---|---|---|
| Scripts/GitAuthors.py:74 | `'Unknown time zone: ' + tz` adds a string to a float and raises `TypeError`, so the "Unknown" assignments after it never run | an offset of 11.5 hours (41400 s) | log the offset and set city, state and country to "Unknown" | not executed; high | Authors.UnmappedOffsetRaises | Authors.GuessCityTotal |
