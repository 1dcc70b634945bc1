# elastic-schema-tools, modelled in Dafny

Two scripts keep a local copy of the Elastic Common Schema (ECS) field list
and turn it into PostgreSQL text:

- `ecs-url-to-csv.py` downloads the published ECS `fields.csv`, compares it
  with the cached `ecs.csv`, and when they differ archives the cached file as
  `ecs.<version>.csv` and installs the download in its place.
- `ecs-csv-to-sql.py` reads the cached CSV and emits a `CREATE TABLE`
  statement (a fixed primary key, one `CHECK ... = ANY (ARRAY[...])`
  constraint each for `Type`, `Field_Set` and `Level`, an `ALTER TABLE ...
  OWNER` statement) followed by one multi-row `INSERT`.

Both scripts carry the same row normaliser: a file with no data line or a
header that is not nine names wide reads as no rows; otherwise every data
line is zipped with the header into a row, `Indexed` becomes the truthiness
of its text, and an empty `Normalization` or `Example` becomes `None`.

The project has seven modules:

| file | module | what it holds |
|---|---|---|
| `wrappers.dfy` | `Wrappers` | `Option`, `Result`, `Outcome`, the exceptions the scripts raise, and `Collect`, a list comprehension whose first raising element wins |
| `text.dfy` | `Text` | concatenation, `str.join`, `str.replace`, and the "item, then separator or closer" sequences the accumulation loops emit |
| `records.dfy` | `Records` | a row as an insertion-ordered association list (a Python `dict`), lookup, assignment, `dict(zip(...))`, column extraction, and the duplicate-free enumeration that stands for a Python `set` |
| `reader.dfy` | `SchemaReader` | `_has_data`, `_has_right_column_number`, `_format_data`, `_clean_data` (in place over an `array`), `readfile` |
| `sql.dfy` | `SqlCompiler` | `_add_constraint`, `_make_primary_key`, `make_sql`, `make_sql_preload`, each loop as a method proved against a specification function |
| `change.dfy` | `ChangeDetector` | the three change witnesses and `content_has_changed`, as functions over the two snapshots |
| `rotator.dfy` | `CacheRotation` | the `CACHE` dict and the data directory as the class `Context`, its loaders, the loop versions of the change checks, `update_content`, `cleanup` and `main` |

Python exceptions are values: a function that may raise returns a `Result`
(or an `Outcome` when it returns nothing), and the error is the exception the
script raises first. The files of the data directory are a map from file name
to the file's tokenised lines; downloading is a parameter of the model.

## Model

| member | source | states |
|---|---|---|
| Wrappers.CollectSpec | ecs-csv-to-sql.py:59-65 | a comprehension over a list succeeds exactly when every element does, then yields each element's value in order; otherwise it raises the exception of the first element that raises |
| Records.FindNone | ecs-csv-to-sql.py:60 | a dict lookup finds nothing exactly when no entry has the key |
| Records.PutSpec | ecs-csv-to-sql.py:60-64 | assignment to a dict key: the key now maps to the new value, every other key keeps its value, an existing key keeps its position and a new key is appended, keys stay unique |
| Records.ZipRecordWellFormed | ecs-csv-to-sql.py:53 | `dict(zip(header, line))` has unique keys and only text values |
| Records.ZipRecordExact | ecs-csv-to-sql.py:53 | with distinct header names and a line at least as wide as the header, the row pairs each header name with the cell at its position, in header order |
| Records.Column | ecs-csv-to-sql.py:83 | `[d[k] for d in data]` succeeds exactly when every row has `k`, with one value per row taken from that row, and raises `KeyError(k)` otherwise |
| Records.Distinct | ecs-csv-to-sql.py:83 | the enumeration of `set(xs)` has no duplicates and exactly the members of `xs` |
| Records.DistinctCard | ecs-url-to-csv.py:125 | `len(set(xs))` is the length of the enumeration |
| SchemaReader.CleanRecordRaises | ecs-csv-to-sql.py:59-64 | cleaning a row raises exactly when it lacks `Indexed`, `Normalization` or `Example`, and raises `KeyError` for the first missing one in that order |
| SchemaReader.CleanRecordCoerces | ecs-csv-to-sql.py:59-64 | `Indexed` becomes `True` exactly for non-empty text (so the text "False" is true), `Normalization` and `Example` become `None` exactly when they are empty text, every other key keeps its value, no key moves and keys stay unique |
| SchemaReader.CleanData | ecs-csv-to-sql.py:55-65 | the array holds every cleaned row when no row raises, and otherwise the outcome is the exception of the first row that raises |
| SchemaReader.ReadSpec | ecs-csv-to-sql.py:67-77 | `readfile` returns `[]` exactly when the file has at most one line or a header not nine wide; otherwise one cleaned row per data line, the header excluded, or the exception of the first data line that raises |
| SchemaReader.ReadFile | ecs-csv-to-sql.py:67-77 | computes `Read` of the file's lines by cleaning the formatted rows in an array |
| SqlCompiler.AddConstraint | ecs-csv-to-sql.py:79-93 | `_add_constraint` returns the text of `Constraint`: the constraint name and column, then each distinct value of the column followed by `,` or, after the last, by the array closer |
| SqlCompiler.AppendItems | ecs-csv-to-sql.py:84-91 | the loop appends to its starting text exactly the item-and-separator sequence of the values |
| SqlCompiler.ItemInjective | ecs-csv-to-sql.py:85 | two values give the same `'<v>'::bpchar` item only when they are equal |
| SqlCompiler.ConstraintSeparators | ecs-csv-to-sql.py:84-91 | for n >= 1 values the items begin with the first value, exactly n - 1 commas are emitted, and the closer `]))` is emitted exactly once, as the last fragment |
| SqlCompiler.EmptyDataLeavesArrayOpen | ecs-csv-to-sql.py:82-91 | with no rows the constraint is its opening text alone and ends with `ARRAY[`, never closed |
| SqlCompiler.ConstraintListsEachValueOnce | ecs-csv-to-sql.py:82-91 | every value of the column appears exactly once as an item, and every item is the item of some value of the column |
| SqlCompiler.PrimaryKeyIsFixed | ecs-csv-to-sql.py:94-95 | the primary key is always `PRIMARY KEY ("ECS_Version", "Field_Set", "Field", "Type", "Level")` |
| SqlCompiler.MakeSql | ecs-csv-to-sql.py:97-123 | `make_sql` returns `Table`: the fixed head, the constraint block, the closing `);` and the `ALTER TABLE` statement |
| SqlCompiler.AppendConstraints | ecs-csv-to-sql.py:114-120 | the loop over `Type`, `Field_Set`, `Level` raises the first constraint's exception, or appends each constraint after a line break, with `,` after all but the last and a tab after each |
| SqlCompiler.TableStep | ecs-csv-to-sql.py:116-120 | one iteration of the constraint loop appends the line break, the constraint, `,` unless it is the last field, and the tab |
| SqlCompiler.ConstraintsForThree | ecs-csv-to-sql.py:115-117 | the three constraints are computed in field order and the first that raises wins |
| SqlCompiler.MakeSqlLayout | ecs-csv-to-sql.py:97-123 | `make_sql` raises the `KeyError` of `Type`, then `Field_Set`, then `Level`, or returns the head, the three constraints in that order with a comma after the first two only, then `);`, then `ALTER TABLE ... OWNER to <owner>;` |
| SqlCompiler.RenderIsOneLiteral | ecs-csv-to-sql.py:136-145 | `None` becomes `NULL` and nothing else does, booleans become `'true'` or `'false'`, text is single-quoted with every `'` removed, and every non-`NULL` rendering is one quoted literal with no quote inside |
| SqlCompiler.PrepareSpec | ecs-csv-to-sql.py:134-145 | `prepped` has exactly the row's keys, each mapped to its value's rendering |
| SqlCompiler.Pick | ecs-csv-to-sql.py:147 | `[prepped[x] for x in fields]` succeeds exactly when every field is present, with that field's value at each position, and raises `KeyError` for the first missing field in `fields` order otherwise |
| SqlCompiler.TupleInFieldOrder | ecs-csv-to-sql.py:134-150 | a row's tuple is `(` and the nine renderings in the fixed column order joined by `, ` and `)`, or a row lacking a column raises `KeyError` for the first of the nine it lacks, in column order |
| SqlCompiler.PrepRow | ecs-csv-to-sql.py:134-150 | the per-row loop computes the row's tuple |
| SqlCompiler.TupleStep | ecs-csv-to-sql.py:148-153 | one iteration of the row loop appends the tuple, `,` unless it is the last row, and the line break |
| SqlCompiler.PreloadLayout | ecs-csv-to-sql.py:128-155 | the statement holds one tuple per row in row order, exactly one comma fewer than tuples, no trailing comma, and it ends with `;`; with no rows it is the head and `;` |
| SqlCompiler.MakeSqlPreload | ecs-csv-to-sql.py:125-155 | `make_sql_preload` returns `Preload`: the head, then every row's tuple with its separator, then `;`, or the first row's exception |
| ChangeDetector.LengthChangedSpec | ecs-url-to-csv.py:137-145 | false without a new snapshot, true with a new but no old one, otherwise true exactly when the lengths differ |
| ChangeDetector.PairwiseComparison | ecs-url-to-csv.py:127-134 | two duplicate-free enumerations of equal length contain a differing pair exactly when they are not the same set of at most one element |
| ChangeDetector.VersionChangedMeaning | ecs-url-to-csv.py:121-135 | the version check reports no change exactly when both snapshots carry the same versions and at most one of them |
| ChangeDetector.VersionChangedCases | ecs-url-to-csv.py:121-135 | different version counts are a change, two version-less snapshots are not, two single versions are a change exactly when they differ, and equal counts of two or more are always a change |
| ChangeDetector.VersionChangedRaises | ecs-url-to-csv.py:123-124 | the version check raises exactly when a snapshot is `None` (`TypeError`) or has a row without `ECS_Version` (`KeyError`), the old snapshot first |
| ChangeDetector.LinesChangedSpec | ecs-url-to-csv.py:147-156 | the line check reports no change exactly when every new row is an old row, so a snapshot compared with itself has no new lines |
| ChangeDetector.UnchangedIff | ecs-url-to-csv.py:158-167 | `content_has_changed` is false exactly when the lengths agree, both snapshots carry the same single version (or none), and every new row is cached |
| ChangeDetector.SelfComparison | ecs-url-to-csv.py:158-167 | a snapshot compared with itself is a change exactly when it carries two or more versions |
| ChangeDetector.NewRowIsChange | ecs-url-to-csv.py:158-167 | a new row the cache lacks is always a change |
| ChangeDetector.ReplacedVersions | ecs-url-to-csv.py:123-124 | after one row's `ECS_Version` is replaced, every row still carries a version and that row carries the new one |
| ChangeDetector.VersionReplacedIsChange | ecs-url-to-csv.py:121-135 | replacing one row's `ECS_Version` by a different value, all else equal, is always reported as a change |
| ChangeDetector.AppendedRowIsChange | ecs-url-to-csv.py:158-167 | appending a row is always a change |
| ChangeDetector.NoNewSnapshot | ecs-url-to-csv.py:158-167 | without a new snapshot the length check passes and the version check raises `TypeError` |
| CacheRotation.ArchiveNameShape | ecs-url-to-csv.py:173 | the archive is named `ecs.<version>.csv`, never the cache file or the temporary file |
| CacheRotation.AsWrittenNeverRotates | ecs-url-to-csv.py:172-175 | as written, `update_content` always raises and changes no file, while the corrected call archives the cache file and installs the download |
| CacheRotation.UpdateTouches | ecs-url-to-csv.py:171-184 | with the line-175 message corrected, `update_content` succeeds exactly when the last old row has a version, the cache file exists and a download is held; only the cache file and the archive change, the archive receiving the old cache content and the cache file the download (or nothing, when the download is missing) |
| CacheRotation.SessionRotates | ecs-url-to-csv.py:195-207 | with the line-175 message corrected, a run that detects a change and exits 0 has archived the old cache file, installed the download, removed the temporary file and left every other file alone, and the cache file then reads as the download |
| CacheRotation.SessionKeepsUnchanged | ecs-url-to-csv.py:195-207 | a run that detects no change exits 0 and only removes the temporary file |
| CacheRotation.SessionEnds | ecs-url-to-csv.py:195-207 | with the line-175 message corrected, an exception escapes exactly when loading, downloading, reading the download or rotating raises; status 1 exactly when the comparison raises, leaving the download in the temporary file; status 0 leaves no temporary file |
| CacheRotation.SessionAsWrittenNeverRotates | ecs-url-to-csv.py:171-207 | as written, `main` changes no file but the temporary one; a run that detects a change ends with the exception of line 175 (or of the `[-1]`/`ECS_Version` lookup before it), the download left in the temporary file, and every other run ends as in the corrected `Session` |
| CacheRotation.AsWrittenRaisesWhereCorrectedRotates | ecs-url-to-csv.py:175-205 | when the cache loads, the download reads, a change is detected and the last cached row has a version, the corrected run exits 0 while the run as written raises `AttributeError` |
| CacheRotation.RerunIsQuiet | ecs-url-to-csv.py:195-207 | with the line-175 message corrected, after a run that exited 0, a second run on the same single-version download ends the same way and changes nothing |
| CacheRotation.Context.constructor | ecs-url-to-csv.py:23 | every cache entry starts as `None` |
| CacheRotation.Context.ReadFile | ecs-url-to-csv.py:73-83 | `readfile` raises `FileNotFoundError` for a missing file and otherwise reads it as the shared normaliser does |
| CacheRotation.Context.Download | ecs-url-to-csv.py:85-98 | a download that raises changes nothing; otherwise `RAW` holds the content and the temporary file is written with it |
| CacheRotation.Context.LoadCacheOld | ecs-url-to-csv.py:100-101 | `OLD` becomes the read of the cache file, or the read's exception escapes with `OLD` unchanged |
| CacheRotation.Context.LoadCacheNew | ecs-url-to-csv.py:103-105 | download, then `NEW` becomes the read of the temporary file |
| CacheRotation.Context.CheckNewCacheLoaded | ecs-url-to-csv.py:107-109 | raises exactly when `NEW` is `None` |
| CacheRotation.Context.InitChangesCache | ecs-url-to-csv.py:111-113 | an unset change list becomes empty, a set one is kept |
| CacheRotation.Context.InitCache | ecs-url-to-csv.py:115-119 | the old cache, then the download and the new cache are loaded, the first exception escaping; once the download is read `NEW` is set, so the check in between never raises |
| CacheRotation.Context.EcsVersionChanged | ecs-url-to-csv.py:121-135 | the nested loops with `break` compute `VersionChanged` |
| CacheRotation.Context.LinesChanged | ecs-url-to-csv.py:147-156 | the scan with `break` computes `LinesChanged` |
| CacheRotation.Context.ContentHasChanged | ecs-url-to-csv.py:158-167 | computes `ContentChanged`: length, then version, then lines, stopping at the first positive |
| CacheRotation.Context.UpdateContent | ecs-url-to-csv.py:171-184 | with the progress message corrected, the cache file is copied to the archive before the download overwrites it, as `Update` states |
| CacheRotation.Context.UpdateContentAsWritten | ecs-url-to-csv.py:171-175 | as written the call raises the `[-1]`/`ECS_Version` lookup error or `AttributeError`, and touches no file |
| CacheRotation.Context.Cleanup | ecs-url-to-csv.py:187-192 | the temporary file is absent afterwards and nothing else changes, so a missing temporary file is a no-op |
| CacheRotation.Context.Run | ecs-url-to-csv.py:195-207 | with the line-175 message corrected, `main` ends and leaves the files as `Session` states: clean up, load (exceptions escape), compare (an exception exits 1), rotate only on a change, clean up, exit 0 |
| CacheRotation.Context.RunAsWritten | ecs-url-to-csv.py:195-207 | `main` as written ends and leaves the files as `SessionAsWritten` states |

## Left out

- CSV tokenisation by `csv.reader`, text decoding of the download, and the opening of files: a file is its already-split lines, and an empty file has no lines.
- The HTTP download (`urlopen`): its result is a parameter of `LoadCacheNew`, `InitCache`, `Run` and `RunAsWritten`, and any failure stands for the exception it raises.
- Write and remove failures of the file system, and the directory layout under `BASE_DIR`: files are named inside the data directory.
- `save_sql` and the `main` of ecs-csv-to-sql.py (ecs-csv-to-sql.py:158-173): they only write the two generated texts to a file.
- `print` output, the `verbose` flag and the messages of the exceptions.
- Python's `hash` in `_lines_changed`: rows are compared by their contents in entry order, which is what `str` of a dict shows; hash collisions are not modelled.
- The iteration order of Python sets: a set is enumerated in first-occurrence order, and every property about the constraints, the version check and the line check is stated without depending on that order.
- The `isinstance(..., list)` test of `_init_changes_cache`: the change list is typed, so it is always a list when set.
- SchemaReader.CleanData: a row that raises is not left half-cleaned in the array (`Indexed` converted, `Normalization` missing); the exception escapes `readfile`, so nobody can observe that row.
- CacheRotation.Context.Run: describes `main` with the line-175 message corrected (see Findings); `main` as written is `CacheRotation.Context.RunAsWritten`. Both state the files and how the run ends, not the cache entries, which die with the process at `sys.exit`.
- CacheRotation.SessionRotates: describes `main` with the line-175 message corrected; as written no run rotates, as `CacheRotation.SessionAsWrittenNeverRotates` states.
- CacheRotation.SessionEnds: describes `main` with the line-175 message corrected; as written a run that detects a change raises instead, as `CacheRotation.SessionAsWrittenNeverRotates` states.
- CacheRotation.RerunIsQuiet: describes `main` with the line-175 message corrected; as written the first run already raises and the cache file is never replaced.
- The cleanup of `main` is not unconditional: the source exits with status 1 when the comparison raises without removing the temporary file, and an exception from `init_cache` or `update_content` also skips it; the model follows the code.
- The constraint name uses the column name as given, so the `Type` constraint is named `<schema>_<table>_Type_oneof`; constraint values are written without removing quotes (only the `INSERT` values are quote-stripped); and with no rows the constraint array is never closed and the `INSERT` is `VALUES` followed by a line break and `;`. The model follows the code in each.

## Findings

| source | as written | input that shows it | evidently intended | confidence | as-written member | corrected member |
|---|---|---|---|---|---|---|
| ecs-url-to-csv.py:175 | the progress message reads `oldfile_name.name`, but `oldfile_name` is the `str` returned by `str.replace`, so `update_content` raises `AttributeError` before it opens any file, and no change is ever rotated | any run that detects a change, for example a cache of one row with `ECS_Version` `8.0.0` and a download with one more row | print the archive's name (`oldfile.name`) and go on to copy the cache file to `ecs.<version>.csv` and install the download | high, not executed | CacheRotation.Context.UpdateContentAsWritten | CacheRotation.Context.UpdateContent |
