# run_mash core, modelled in Dafny

The repository runs the Mash genome-distance tool over a set of sequence files
and post-processes what Mash prints. This project models the parts of three
programs that decide what happens. It leaves out the subprocesses themselves.

- `run_mash/src/lib.rs`. Builds the input list from files and directories
  (`find_files`) and loads an optional alias table (`get_aliases`). Builds one
  `mash sketch` command per input that has no `.msh` file yet, then runs the
  commands through GNU `parallel` (`sketch_files`, `run_jobs`). Collects and
  sorts the sketches and checks their number. Rewrites the matrix text that
  `mash dist` prints, giving every row and column the basename of its file
  (`fix_mash_distance`, `fix_mash_header`, `fix_mash_line`, `basename`).
- `scripts/fix_matrix.py`. Rewrites a Mash matrix as `distance.tab` and
  `nearness.tab`. In `nearness.tab` each distance `d` becomes `1 - d`. Sample
  names come from a tab-separated alias file.
- `scripts/make_metadata_dir.py`. Checks a metadata table's header line and
  numeric options. Selects the named samples. For every column whose name ends
  in `.d`, `.c` or `.ll` it writes one sample-by-sample matrix to
  `<column>.meta`. For a `.d` column this is a 0/1 "same value" matrix
  (`discrete_vals`). Any other column gets "No data".

## How the model is built

- **File system.** A value `map<path, Node>` (module `Paths`). A node is a
  regular file, a directory with its entries, a symbolic link or anything
  else. `fs::metadata`, `Path::exists`, `File::open` and `os.path.isfile`
  follow links, at most 40 of them as Linux does. `DirEntry::metadata` does
  not follow them.
- **File contents, CSV and pandas readers.** Function parameters.
- **Job pool.** An oracle that answers whether every job succeeded.
- **Sketch directory.** Its listing after the pool has run is a parameter.
- **Loops.** Every loop of the source is a Dafny `method` with its loop. Each
  method is proved equal to a specification function. The properties of the
  programs are proved as lemmas about those functions.

The modules follow the programs:

- `Results`: `Option` and `Result`.
- `Text`: split and join, basenames, whitespace stripping, sorting.
- `Paths`: the file system, path joining, extensions.
- `AliasTable`: the last-row-wins table that both alias loaders build.
- `RunMash`, `FixMatrix` and `MakeMetadataDir`: one per program.

Points of the code that the model keeps as they are:

- **Sketch file names.** Each sketch file is named after the alias of its input
  when there is one (`run_mash/src/lib.rs:223-224`), not after the raw
  basename. Two inputs with the same alias therefore share one sketch file.
- **Matrix relabelling.** `fix_mash_header` and `fix_mash_line` pass no alias
  table to `basename` (`run_mash/src/lib.rs:410`, `:417`). So the relabelled
  matrix shows plain basenames, not aliases.
- **Unreadable records.** A record the CSV reader cannot deserialize aborts
  `get_aliases` (`run_mash/src/lib.rs:466`). Only records missing `sample_name`
  or `alias` are skipped.
- **Links inside a query directory.** `find_files` reads each entry's own
  metadata (`run_mash/src/lib.rs:182`), which does not follow links. A link in
  a query directory is skipped even when it points to a regular file. A query
  path itself is followed (`run_mash/src/lib.rs:176`).
- **Incomplete alias rows.** `fix_matrix.py` stops at the first alias row that
  lacks `name` or `alias` (`scripts/fix_matrix.py:40-44`). It does not skip it.

## Model

| member | source | states |
|---|---|---|
| `Text.Split` | run_mash/src/lib.rs:408 | Splitting at a character always gives at least one field, and no field contains the separator. |
| `Text.JoinSplit` | run_mash/src/lib.rs:408-411 | Joining the fields of a string with the separator rebuilds the string. |
| `Text.SplitJoin` | run_mash/src/lib.rs:416-418 | Splitting a join of separator-free fields gives back exactly those fields. This is what "field count per line is kept" rests on. |
| `Text.JoinReplacingFirst` | run_mash/src/lib.rs:415-419 | Replacing the first field of a line keeps everything after that field, separators included, unchanged. |
| `Text.LastSegmentIsFinalPart` | run_mash/src/lib.rs:423-427 | The last path segment has no `/`. It is a suffix of the path: either the whole path or preceded by a `/`. |
| `Text.LastSegmentIdempotent` | run_mash/src/lib.rs:423-427 | Taking the basename of a basename changes nothing. |
| `Text.RFindLast` | scripts/fix_matrix.py:55 | `rfind` gives a position holding the character with none after it, or -1. |
| `Text.RStrip` | scripts/make_metadata_dir.py:144 | `rstrip` keeps a prefix, drops only whitespace and leaves no trailing whitespace. |
| `Text.LStrip` | scripts/make_metadata_dir.py:113 | `lstrip` keeps a suffix, drops only whitespace and leaves no leading whitespace. |
| `Text.Sort` | run_mash/src/lib.rs:248 | The sorted list is in code-point order and is a permutation of its input. |
| `Paths.PathJoinShape` | run_mash/src/lib.rs:224 | A joined path is the name after the base, or after the base and one `/`, unless the name is absolute. |
| `Paths.JoinedNameIsLastSegment` | run_mash/src/lib.rs:224 | A slash-free name joined onto a directory is the basename of the result. |
| `Paths.Extension` | run_mash/src/lib.rs:453 | There is no extension exactly when the file name is `..` or has no `.` after its first character. Otherwise the extension has no `.`, and the file name ends with `.` plus the extension with something before the dot. |
| `Paths.LinkFollowed` | run_mash/src/lib.rs:176-183 | Resolving any link is resolving its target with one hop fewer, and gives nothing once no hop is left. A link is never a plain file. A link whose target is missing does not exist. |
| `Paths.LinksResolved` | run_mash/src/lib.rs:176-183 | For the chain `a` → `b` → `c` with `c` a regular file, `a` is a file when links are followed, but is not a plain file. Once `c` is removed, `a` does not exist. |
| `Paths.FollowGrows` | run_mash/src/lib.rs:227 | Adding paths without changing existing ones keeps every existing path resolving to the same node. |
| `AliasTable.CollectAppend` | run_mash/src/lib.rs:465-477 | One more row adds its binding when it has both columns and leaves the table alone otherwise. |
| `AliasTable.CollectKeys` | run_mash/src/lib.rs:465-477 | A name is in the table exactly when some row with both columns carries it. |
| `AliasTable.CollectLastWins` | run_mash/src/lib.rs:470-473 | A name is bound to the alias of the last complete row that carries it. |
| `AliasTable.CollectEmpty` | run_mash/src/lib.rs:479-483 | The table is empty exactly when no row has both columns. |
| `RunMash.BaseNameWithoutAliases` | run_mash/src/lib.rs:422-427 | With no table, `basename` gives what follows the last `/` (the whole name when there is none). The result has no `/` and is its own basename. |
| `RunMash.BaseNameWithAliases` | run_mash/src/lib.rs:429-436 | With a table, `basename` gives the alias of the plain basename when the table has one, else the plain basename. |
| `RunMash.BaseNameChars` | run_mash/src/lib.rs:422-427 | A plain basename holds only characters of the file name. |
| `RunMash.FixMashHeader` | run_mash/src/lib.rs:407-412 | The header keeps its number of tab fields. Its first field is empty and every other field is the basename of the original. It adds no character but tabs. |
| `RunMash.FixMashLine` | run_mash/src/lib.rs:415-419 | A data row keeps its number of fields. Its first field becomes its basename and the other fields are unchanged. |
| `RunMash.FixMashDistance` | run_mash/src/lib.rs:393-404 | The matrix keeps its number of lines. Line 0 is relabelled as a header, every other line as a data row, and empty text stays empty. |
| `RunMash.Params` | run_mash/src/lib.rs:204-217 | The thread count is the configured one when it is 1 to 63, and 12 otherwise. The k-mer size defaults to 21 and the sketch size to 1000. |
| `RunMash.PendingJobsAppend` | run_mash/src/lib.rs:222-237 | The jobs of a concatenation of inputs are the jobs of each part, in order. |
| `RunMash.PendingJobsExactly` | run_mash/src/lib.rs:222-237 | A job is scheduled exactly when it is the job of an input whose `.msh` file does not exist, links followed. |
| `RunMash.NoJobsWhenAllSketched` | run_mash/src/lib.rs:222-237 | No job is scheduled exactly when every input already has its `.msh` file. |
| `RunMash.RerunSchedulesNothing` | run_mash/src/lib.rs:222-237 | Resuming is idempotent. Once every scheduled job's `.msh` file exists, and no existing path was removed or changed, a second run schedules nothing. |
| `RunMash.BuildJobs` | run_mash/src/lib.rs:222-237 | The loop yields exactly the pending jobs in input order. |
| `RunMash.Decimal` | run_mash/src/lib.rs:229-233 | Printing a number gives at least one decimal digit, with no leading zero except for 0 itself. |
| `RunMash.DecimalRoundTrip` | run_mash/src/lib.rs:229-233 | The printed digits denote the number printed. |
| `RunMash.Command` | run_mash/src/lib.rs:228-235 | The sketch command ends with a space and the input path. |
| `RunMash.CommandJoined` | run_mash/src/lib.rs:228-235 | The command is `mash`, `sketch`, `-p` and the thread count, `-o` and the output file, `-s` and the sketch size, `-k` and the k-mer size, then the input, with single spaces between them. |
| `RunMash.CommandWords` | run_mash/src/lib.rs:228-235 | When neither path holds a space, splitting the command at spaces gives exactly those eleven words, and the three numbers read back as the job's thread count, sketch size and k-mer size. A path with a space becomes several words. |
| `RunMash.RunJobs` | run_mash/src/lib.rs:258-293 | With no job nothing runs and the result is success. Otherwise it succeeds exactly when the pool reports success, and the only error is the job failure. |
| `RunMash.Delimiter` | run_mash/src/lib.rs:453-459 | The delimiter is a comma exactly when the extension is `csv`, and a tab otherwise. |
| `RunMash.AliasesOfReadable` | run_mash/src/lib.rs:465-483 | With readable records, there is no table exactly when no row has both `sample_name` and `alias`. Otherwise a name is in the table exactly when a complete row carries it, and it is bound to the alias of the last complete row that carries it. |
| `RunMash.GetAliases` | run_mash/src/lib.rs:440-486 | No file gives no table, and a file that does not exist (links followed) gives an error. Otherwise the result is that of the records read with the extension's delimiter. A table returned is never empty. |
| `RunMash.RegularEntriesExactly` | run_mash/src/lib.rs:180-186 | The files taken from a directory are exactly its entries that are themselves regular files. A link is not taken, even one to a regular file. |
| `RunMash.Gathered` | run_mash/src/lib.rs:175-188 | Gathering fails only with a metadata or directory error, never with "no input files". |
| `RunMash.Discover` | run_mash/src/lib.rs:173-195 | "No input files" is returned exactly when gathering succeeds with nothing. A success is the non-empty gathered list. |
| `RunMash.GatheredExactly` | run_mash/src/lib.rs:173-188 | A path is found exactly when it is a query path that resolves to a regular file, or a plain regular file listed directly in the directory a query path resolves to. |
| `RunMash.ScanDir` | run_mash/src/lib.rs:180-186 | The inner loop appends the regular-file entries in listing order, or fails at the first entry whose metadata cannot be read. |
| `RunMash.FindFiles` | run_mash/src/lib.rs:173-195 | `find_files` returns what `Discover` specifies, and every path it returns resolves to a regular file. |
| `RunMash.SketchFiles` | run_mash/src/lib.rs:198-255 | An alias error is passed on. A pool failure on pending jobs is an error. Otherwise the result is the sorted listing when its size equals the number of inputs, and the count error when it does not. A success is sorted, a permutation of the listing and as long as the input list. |
| `FixMatrix.BasenameAfterLastSlash` | scripts/fix_matrix.py:55 | `os.path.basename` is the text after the last `/`. |
| `FixMatrix.BasenameIsLastSegment` | scripts/fix_matrix.py:55 | The Python basename equals the Rust program's basename without aliases. |
| `FixMatrix.GoodNameIsBaseName` | scripts/fix_matrix.py:53-56 | `good_name` chooses the same name as the Rust `basename` with the same alias table. |
| `FixMatrix.GoodNameChars` | scripts/fix_matrix.py:53-56 | A display name holds only characters of the path or of an alias. |
| `FixMatrix.PyLinesRoundTrip` | scripts/fix_matrix.py:58 | The lines that iterating the file yields, put back together, are the file's text. |
| `FixMatrix.PyLinesShape` | scripts/fix_matrix.py:58 | Every yielded line is non-empty and has a newline at most at its end. Every line but the last ends with one. |
| `FixMatrix.SplitKeepsNewline` | scripts/fix_matrix.py:59 | Splitting a line that still has its newline gives the fields of the line without it, and the last field has the newline attached. |
| `FixMatrix.EndedRowFields` | scripts/fix_matrix.py:58-60 | A line with a tab and a newline only at its end has at least two fields. The first field has no newline and the last ends with the newline. |
| `FixMatrix.HeaderShape` | scripts/fix_matrix.py:59-66 | With tab-free aliases, the header row ends with the newline the script adds. Read back without it, the row has one cell per field of the line: an empty corner, then `good_name` of each field exactly as split, the last one with its newline. |
| `FixMatrix.DistanceRowKeepsMeasurements` | scripts/fix_matrix.py:59-69 | A `distance.tab` row is the renamed sample, then the rest of the line exactly as it was, its newline included, then one more newline. |
| `FixMatrix.NearnessMatchesDistance` | scripts/fix_matrix.py:59-71 | Read back without the added newline, a `nearness.tab` row has as many cells as the line has fields. It names the same sample as the distance row. Each later cell is the inverse of the distance cell, which is the line's field unchanged. |
| `FixMatrix.HeaderEndsInBlankLine` | scripts/fix_matrix.py:59-66 | As written, for a header line with a tab and a final newline, the last field keeps the newline. When no alias name holds a newline, its basename is not in the alias table, and the column shows that basename with the newline. The header row ends in an empty line. |
| `FixMatrix.DistanceEndsInBlankLine` | scripts/fix_matrix.py:59-69 | As written, every `distance.tab` row of a line with a tab and a final newline ends in an empty line. |
| `FixMatrix.NearnessIsSingleLine` | scripts/fix_matrix.py:59-71 | As written, the `nearness.tab` row of such a line is a single line, because the inversion reads past the newline. |
| `FixMatrix.AsWrittenHeaderKeepsNewline` | scripts/fix_matrix.py:59-66 | For the header `corner\ta\tb\n` with `b` in the alias table, the row written is `\t<a's name>\tb\n\n`: `b` keeps its file name. |
| `FixMatrix.AsWrittenDistanceKeepsNewline` | scripts/fix_matrix.py:68-69 | For the row `s\td\te\n`, the `distance.tab` row written is `<s's name>\td\te\n\n`. |
| `FixMatrix.ChompedHeaderUsesAlias` | scripts/fix_matrix.py:63-66 | Corrected script (Findings), newline removed first: the last column shows its alias and the row has one newline. |
| `FixMatrix.ChompedDistanceSingleNewline` | scripts/fix_matrix.py:68-69 | Corrected script (Findings), newline removed first: a distance row ends with exactly one newline. |
| `FixMatrix.CorrectedHeaderColumn` | scripts/fix_matrix.py:64 | Corrected script (Findings), newline removed first: header column `k`, the last one included, shows the alias of its file's basename, or the basename when it has none. |
| `FixMatrix.CorrectedRowsAreSingleLines` | scripts/fix_matrix.py:63-71 | Corrected script (Findings), newline removed first: every row of either output file is exactly one line. |
| `FixMatrix.WriteMatrices` | scripts/fix_matrix.py:58-71 | The loop writes the `nearness.tab` and `distance.tab` texts row by row: the same header row to both, then each line's distance row and nearness row as the script builds them. |
| `FixMatrix.LoadAliases` | scripts/fix_matrix.py:34-44 | Loading fails exactly when some row lacks `name` or `alias`. Otherwise the table binds each name to its last alias. |
| `FixMatrix.Run` | scripts/fix_matrix.py:12-71 | The checks come in the source's order: matrix file, precision 1 to 10, alias file present, alias columns. Then both files are written into the output directory, which defaults to the matrix's directory, holding the rows the script builds from the lines it reads. |
| `MakeMetadataDir.ColumnKindExactly` | scripts/make_metadata_dir.py:92-97 | A column gets a matrix exactly when the header test accepts its name, and at most one suffix matches. |
| `MakeMetadataDir.HeadersOkExactly` | scripts/make_metadata_dir.py:141-147 | The header check accepts exactly a first header `name` followed by columns that all produce a matrix. |
| `MakeMetadataDir.NameOnlyHeaderAccepted` | scripts/make_metadata_dir.py:141-147 | A header line of just `name` is accepted, whatever follows it. |
| `MakeMetadataDir.HeadersIgnoreTrailingSpace` | scripts/make_metadata_dir.py:144 | Trailing whitespace on the header line, a carriage return included, does not change the headers. |
| `MakeMetadataDir.CommaSplitShape` | scripts/make_metadata_dir.py:113 | Every name from `--names` is comma-free and has no whitespace on a side that touched a comma. |
| `MakeMetadataDir.CommaSplitDropsPadding` | scripts/make_metadata_dir.py:113 | Splitting names joined by commas with whitespace around the commas gives back the names. |
| `MakeMetadataDir.SplitLinesRoundTrip` | scripts/make_metadata_dir.py:117 | The lines of the list file, joined by newlines, are its text apart from a final newline. Each line is newline-free. |
| `MakeMetadataDir.SampleNames` | scripts/make_metadata_dir.py:110-119 | `--names` wins and gives one comma-free name per comma-separated piece. Otherwise a list file that exists gives its newline-free lines. Otherwise there are no names. |
| `MakeMetadataDir.RowsNamed` | scripts/make_metadata_dir.py:90 | The rows selected for a name all carry it, and there are none exactly when no row carries it. |
| `MakeMetadataDir.RowsNamedDistinct` | scripts/make_metadata_dir.py:90 | With distinct labels, selecting a label gives its one row. |
| `MakeMetadataDir.RestrictFails` | scripts/make_metadata_dir.py:90 | Selecting the named samples fails exactly when a name labels no row, and it reports the first such name. |
| `MakeMetadataDir.RestrictDistinct` | scripts/make_metadata_dir.py:90 | With distinct labels, the selection has the names as labels, in order, each with its sample's value. |
| `MakeMetadataDir.DiscreteMatrixShape` | scripts/make_metadata_dir.py:151-161 | The discrete matrix has the sorted samples on both axes and one entry per pair. It has 1 on the diagonal, is symmetric, and off the diagonal says whether two samples' values are equal. |
| `MakeMetadataDir.VisitRow` | scripts/make_metadata_dir.py:156-159 | Pairing one sample with every later one sets exactly those pairs' entries and keeps the matrix's keys. |
| `MakeMetadataDir.SetPairs` | scripts/make_metadata_dir.py:156-159 | Starting from a matrix of 1s, the combinations loop ends with exactly the discrete matrix's entries. |
| `MakeMetadataDir.DiscreteVals` | scripts/make_metadata_dir.py:151-161 | `discrete_vals` returns the discrete matrix of the column. |
| `MakeMetadataDir.Column` | scripts/make_metadata_dir.py:90-104 | One turn of the column loop gives the specified result for that column. |
| `MakeMetadataDir.RunWritten` | scripts/make_metadata_dir.py:89-104 | A loop that finishes holds one output per column, in order. |
| `MakeMetadataDir.RunStopped` | scripts/make_metadata_dir.py:89-104 | A loop that stops does so at its first failing column, after the outputs of the columns before it. |
| `MakeMetadataDir.ColumnsDispatch` | scripts/make_metadata_dir.py:92-104 | A finished loop has one output per column, namely the matrix or "No data" that the column's suffix selects, written to `<column>.meta`. |
| `MakeMetadataDir.ColumnsUseSelectedRows` | scripts/make_metadata_dir.py:90-93 | With distinct sample labels, every discrete matrix of a finished loop is over the sorted named samples, or over all samples when none are named. |
| `MakeMetadataDir.ColumnsStopOnMissing` | scripts/make_metadata_dir.py:90 | The loop stops on a missing sample only when that name was asked for and is not in the table. |
| `MakeMetadataDir.ColumnsComplete` | scripts/make_metadata_dir.py:89-104 | With distinct labels and distinct names all in the table, the loop runs through every column. |
| `MakeMetadataDir.RunColumns` | scripts/make_metadata_dir.py:89-104 | The loop's result is the specified column outcome. |
| `MakeMetadataDir.MakeMetadata` | scripts/make_metadata_dir.py:64-104 | The checks come in the source's order: metadata file, headers, `0 < eucdistper < 1`, `sampledist >= 0`. Then the column loop runs over the selected samples. |

## Left out

- Argument parsing: `clap` in `get_args`, and `argparse` in both scripts. The
  parsed options are inputs.
- `run` in `run_mash/src/lib.rs`, apart from the steps above. Not modelled are
  directory creation, the `mash paste` and `mash dist` calls, writing
  `distance.txt`, the render call and the file removal. These are
  subprocesses and file I/O.
- `pairwise_compare` is not part of this model. It is the same kind of
  subprocess driving.
- `mash/src/lib.rs` and the `main.rs` files are not part of this model.
- `RunMash.RunJobs`: the `parallel` process is an oracle. Not modelled are
  the `--halt soon,fail=1` behaviour, the process spawn failing, and the
  progress message.
- `RunMash.SketchFiles`: creating the sketch directory (`DirBuilder`) is left
  out. The `WalkDir` listing after the pool has run is a parameter, as are
  its order and its recursion into sub-directories.
- The CSV tokeniser of `get_aliases` and the `csv.DictReader` of
  `fix_matrix.py` are parameters that yield the rows. A `DictReader` row that
  is short of fields has its missing keys present, with `None` as the value.
  The model represents a row by its keys alone.
- `FixMatrix.Run`: the `1 - float(n)` inversion is a parameter (`invert`),
  because it is floating-point. `--precision` is only range-checked, since the
  script never uses it. `os.makedirs` of the output directory is left out.
- `FixMatrix.Run`: `invert` receives each field exactly as split, so the
  last one still ends in `\n`. The model does not state that `float` ignores
  that newline. Whatever `invert` returns is written. `invert` is total in the
  model. In the script, `float` raises `ValueError` on a cell that is not a
  number, so for the row `s\t\n` the `distance.tab` row is written and the
  script then stops with a traceback before writing the `nearness.tab` row.
- `Paths.Extension`: Rust's `Path::extension` ignores a trailing `/` or `/.`,
  so `a.csv/` has the extension `csv`. The model takes the text after the
  last `/` and gives no extension there.
- `RunMash.FindFiles`: when a query path is a link to a directory, the source
  reports its entries under the link's path. The model reports them as the
  directory lists them, under the target's path. A link's target is a full
  path in the model. Relative targets are not resolved.
- `continuous_vals` and `lat_lon_vals` compute floating-point distances and
  are not modelled. Only the file each goes to is. The `--eucdistper` and
  `--sampledist` checks are kept.
- `prep_out_dir` is left out: it removes and recreates the output directory,
  which is file-system effects only.
- pandas `read_table` and `to_csv` are left out. The parsed table is a
  parameter. Cell equality is text equality, and an empty cell is missing
  (NaN), which equals nothing. Sample labels are text and are sorted as text.
  `read_table` infers the label type, so with all-numeric sample names
  `sorted` at `scripts/make_metadata_dir.py:153` orders them by number.
- `MakeMetadataDir.Restrict`: `.loc[names]` (`scripts/make_metadata_dir.py:90`)
  is modelled with the semantics of pandas 1.0 and later. A name that labels
  no row raises `KeyError`. Earlier pandas returned a missing row for such a
  name, with a warning, and raised only when no name matched.
- `MakeMetadataDir.DiscreteVals`: it requires distinct sample labels. With
  repeated labels pandas yields Series and the comparison is not a single
  value, so the column loop stops with `DuplicateLabels` instead.
- `str.splitlines` also breaks at `\r`, `\v`, `\f`, `\x1c`-`\x1e`, `\x85` and
  the Unicode line separators. The model breaks at `\n` only.
- Whitespace for `rstrip`, `lstrip` and `\s` is the ASCII set. The Unicode
  space characters, and the Unicode case of `re.search`, are left out.
- `print` messages and `exit(1)` are modelled as the error value each
  produces.

## Findings

| source | as written | input that shows it | evidently intended | confidence | as-written member | corrected member |
|---|---|---|---|---|---|---|
| scripts/fix_matrix.py:58-66 | The header line is split without removing its newline. The last column name is looked up together with the `\n`, is never found in the alias table, and the row gets a second `\n`. | The header `corner\ta\tb\n` with `b` in the alias table: the row written is `\t<a's name>\tb\n\n`. | Every column shown under its alias, and one newline per row. | not executed; follows from the split keeping the `\n` | `FixMatrix.HeaderEndsInBlankLine` | `FixMatrix.CorrectedHeaderColumn` |
| scripts/fix_matrix.py:67-69 | Each data row keeps the line's newline in its last field and gets another. So `distance.tab` has an empty line after every row. | The row `s\td\te\n`: the text written is `<s's name>\td\te\n\n`. | One newline per row. | not executed; follows from the split keeping the `\n` | `FixMatrix.DistanceEndsInBlankLine` | `FixMatrix.CorrectedRowsAreSingleLines` |

`FixMatrix.Run` and `FixMatrix.WriteMatrices` write the rows as the script
does. The corrected rows remove the line's newline before splitting
(`FixMatrix.HeaderFields`, `FixMatrix.DistanceFields`,
`FixMatrix.NearnessFields`). The lemmas named in the last column are proved
about them. The concrete inputs are worked through by
`FixMatrix.AsWrittenHeaderKeepsNewline` and
`FixMatrix.AsWrittenDistanceKeepsNewline` for the script as written, and by
`FixMatrix.ChompedHeaderUsesAlias` and `FixMatrix.ChompedDistanceSingleNewline`
for the corrected rows.
