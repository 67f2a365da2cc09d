# Simple Auto Loader pipeline, modelled in Dafny

This project models the deterministic part of the Databricks notebook
`databricks/simple_autoloader.py`. The notebook lists the files in an S3
landing zone and derives a table name from each path with a regular
expression. A file whose table exists in `entity_resolution_dev.bronze` is
read with Auto Loader options chosen by its extension. It is then appended
to that table and moved to the archive zone. Every other file is skipped.

Modules, one per piece of the notebook:

- `TableName` (`table_name.dfy`) models `extract_table_name`. This is
  `re.search(r'/([a-zA-Z0-9_]+)[^/]*\.', path).group(1)`, written as a
  leftmost search (`FirstMatch`) and a greedy run of word characters
  (`RunEnd`). It is proved equal to an independent, regex-shaped reading of
  the pattern (`PatternMatch`, `IsSearchResult`): leftmost start, and the
  longest group with which the rest of the pattern still matches.
- `FileFormat` (`file_format.dfy`) models `detect_format`: `split('.')[-1]`,
  ASCII lower-casing, and the membership test against the four formats.
- `ReadOptions` (`read_options.dfy`) models the options dictionary and the
  schema location `<checkpoint_path>/<table>/schema`.
- `Archive` (`archive.dfy`) models Python's `str.replace` for a non-empty
  pattern, with its `sep.join(s.split(pat))` reading, and the archive path
  `archive_zone + file_path.replace(landing_zone, '')`.
- `Autoloader` (`autoloader.dfy`) models the main loop. `ProcessLandingZone`
  is a method with a `for` loop that appends `Skip`, `Append` and `Move`
  actions to a trace, with `continue` for skips and an early `return` when a
  write fails. It is proved equal to the specification function `Run`. The
  lemmas about `Run` state the per-file outcome properties.
- `Wrappers` (`wrappers.dfy`) holds `Option`, which stands for `None` or a value.

The catalog's table list and the landing-zone listing are inputs, as
sequences of strings. Whether reading a file and appending it succeeds is an
oracle `writeOk: string -> bool`. The notebook has no `try`/`except`, so a
failing write ends the run. The result then has status `WriteFailed`, and
nothing is recorded for the failing file or for any later file.

Where the notebook's comments, or what its names suggest, differ from its
code, the model follows the code:

- The comments at lines 7 and 31 say `edm_entity_2024-06-01.csv` maps to
  `edm_entity`. The regex yields `edm_entity_2024`
  (`TableName.DatedFileNameKeepsYear`).
- The table name is not "the base name without its extension". It comes
  from the first path segment that follows a `/`, starts with a letter,
  digit or `_` and contains a `.`: the leading run of those characters in that segment. A
  segment such as `.tmp` is passed over, and a path whose only dotted
  segment is `.DS_Store` has no table name. Under a bucket whose
  name holds a dot, every file maps to the start of the bucket name
  (`TableName.DottedBucketShadowsFileName`).
- Archived files are not grouped by table. A file goes to the archive zone
  under its path relative to the landing zone (`Archive.ArchiveOfExampleFile`).
- Writes always use append mode. There is no merge or overwrite choice, and
  a failing write stops the run instead of being skipped.
- The schema location is `checkpoint_path/<table>/schema`, which does not
  depend on the table's storage location.

## Model

| member | source | states |
|---|---|---|
| `TableName.RunEnd` | databricks/simple_autoloader.py:32 | Group 1 ends at the first character after the run that is not in `[a-zA-Z0-9_]`. Every character of the run is in that class. |
| `TableName.DotBeforeSlash` | databricks/simple_autoloader.py:32 | The tail `[^/]*\.` matches at `i` only if a `.` follows, with no `/` up to it. |
| `TableName.MatchesAt` | databricks/simple_autoloader.py:32 | The pattern matches with its `/` at `p` only if a `.` follows later in the same segment, after at least one word character. |
| `TableName.FirstMatch` | databricks/simple_autoloader.py:32 | `re.search` scans left to right. It returns `None` exactly when no position matches. Otherwise it returns a matching position with no match before it. |
| `TableName.ExtractTableName` | databricks/simple_autoloader.py:30-36 | `None` exactly when the pattern matches nowhere. Otherwise the name is non-empty and all `[a-zA-Z0-9_]`. It sits right after the `/` of the leftmost match and is maximal: the next character is not a word character. |
| `TableName.DotBeforeSlashIff` | databricks/simple_autoloader.py:32 | The tail `[^/]*\.` matches at `i` exactly when a `.` occurs at or after `i` with no `/` before it. |
| `TableName.GroupWithinRun` | databricks/simple_autoloader.py:32 | No match of the pattern has a group 1 longer than the run of word characters after its `/`. |
| `TableName.MatchesAtIsPattern` | databricks/simple_autoloader.py:32 | At a fixed start, the pattern matches exactly when `MatchesAt` holds. The group ending at the run's end then admits a match. |
| `TableName.StartIffMatchesAt` | databricks/simple_autoloader.py:32 | A match can start only inside the path, and exactly where `MatchesAt` holds. |
| `TableName.ExtractTableNameIsSearch` | databricks/simple_autoloader.py:30-36 | `extract_table_name` equals the result of `re.search` followed by `group(1)`: the leftmost start, and there the longest group the backtracking engine accepts. |
| `TableName.RunEndAt` | databricks/simple_autoloader.py:32 | Any end that closes a run of word characters is the end of the greedy group. |
| `TableName.NoDotBeforeSlash` | databricks/simple_autoloader.py:32 | A segment with no `.` before its closing `/` does not match `[^/]*\.`. |
| `TableName.FirstMatchAt` | databricks/simple_autoloader.py:32 | The search stops at the first position where the pattern matches, whatever follows it. |
| `TableName.NoMatchIsFailedSearch` | databricks/simple_autoloader.py:32-34 | When the scan finds no match, `re.search` returns `None` as well. |
| `TableName.FirstMatchIsSearch` | databricks/simple_autoloader.py:32-36 | When the scan stops at `p`, group 1 of `re.search` is the run of word characters after `p`. |
| `TableName.FirstMatchIsLeftmost` | databricks/simple_autoloader.py:32 | The position where the scan stops is where the leftmost match of the pattern starts. |
| `TableName.RunEndIsGreedy` | databricks/simple_autoloader.py:32 | Where the pattern matches, the greedy `[a-zA-Z0-9_]+` ends at the end of the run: the longest group with which the rest of the pattern matches. |
| `TableName.GroupOfLeftmostGreedy` | databricks/simple_autoloader.py:32-36 | The longest group at the leftmost start is what `re.search(...).group(1)` returns. |
| `TableName.NameOfFileInPlainDirectory` | databricks/simple_autoloader.py:30-36 | A file directly under a directory whose path has no `.` maps to the non-empty run of word characters that starts its file name. This holds when the rest of the file name starts with a non-word character and contains a `.`. |
| `TableName.PlainFileName` | databricks/simple_autoloader.py:30-36 | `s3://your-bucket/landing-zone/edm_entity1.csv` maps to `edm_entity1`. |
| `TableName.DatedFileNameKeepsYear` | databricks/simple_autoloader.py:30-36 | `edm_entity_2024-06-01.csv`, under any directory whose path has no `.` (such as the landing zone), maps to `edm_entity_2024`, not to the `edm_entity` the comment claims. |
| `TableName.DottedBucketShadowsFileName` | databricks/simple_autoloader.py:32-34 | Every path under `s3://my.` maps to `my`, whatever the file: an earlier segment containing a `.` wins. |
| `FileFormat.LastPiece` | databricks/simple_autoloader.py:40 | `split('.')[-1]` is the suffix that contains no `.` and is preceded by a `.`, or the whole string when the string has no `.`. |
| `FileFormat.LowerChar` | databricks/simple_autoloader.py:40 | An ASCII upper-case letter becomes its own lower-case letter, at the same distance from `a` as the capital is from `A`. Every other character is kept. |
| `FileFormat.Lower` | databricks/simple_autoloader.py:40 | Lower-casing keeps the length and lowers each character on its own. |
| `FileFormat.DetectFormat` | databricks/simple_autoloader.py:39-43 | The format is always one of `csv`, `json`, `parquet`, `txt`. |
| `FileFormat.LastPieceAfterDot` | databricks/simple_autoloader.py:40 | For `head + "." + ext` with no `.` in `ext`, the last piece is `ext`. |
| `FileFormat.LastPieceWithoutDot` | databricks/simple_autoloader.py:40 | A string with no `.` is its own last piece. |
| `FileFormat.DetectFormatOfExtension` | databricks/simple_autoloader.py:40-43 | The format is the lower-cased extension when that is one of the four names. Any other extension gives `csv`. |
| `FileFormat.DetectFormatIgnoresCase` | databricks/simple_autoloader.py:40-43 | Two paths whose extensions agree up to ASCII case get the same format, whatever precedes the extension. |
| `FileFormat.SlashIsNoFormat` | databricks/simple_autoloader.py:41 | A string that contains a `/` is never one of the supported format names. |
| `FileFormat.LowerKeeps` | databricks/simple_autoloader.py:40 | A character of the string that is not an ASCII upper-case letter still occurs in the lower-cased string. |
| `FileFormat.DetectFormatWithoutExtension` | databricks/simple_autoloader.py:40-43 | A path that contains a `/` and no `.` is read as `csv`. |
| `FileFormat.UpperCaseExtension` | databricks/simple_autoloader.py:40-42 | `orders.JSON` is read as `json`. |
| `FileFormat.OnlyLastExtensionCounts` | databricks/simple_autoloader.py:40-43 | `orders.txt.gz` is read as `csv`, because only the text after the last `.` counts. |
| `ReadOptions.SchemaLocation` | databricks/simple_autoloader.py:67 | The schema location is the checkpoint root, a `/`, the table name, then `/schema`. |
| `ReadOptions.Options` | databricks/simple_autoloader.py:65-75 | Every file gets `cloudFiles.format` set to its format, `cloudFiles.schemaLocation` set to its table's schema location, and `cloudFiles.inferColumnTypes` set to `true`. `header=true` is added with delimiter `,` for csv only, and with a tab for txt only. json and parquet get exactly the three base keys. |
| `ReadOptions.BuildOptions` | databricks/simple_autoloader.py:65-75 | Building the dictionary in place, with two independent `if`s, yields exactly `Options`. |
| `ReadOptions.SchemaLocationInjective` | databricks/simple_autoloader.py:67 | Under one checkpoint root, two different tables never share a schema location. |
| `Archive.Replace` | databricks/simple_autoloader.py:93 | `str.replace` leaves a string unchanged when the pattern does not occur in it. With `ReplaceLeading` and `ReplaceNonLeading` its result is fixed for every string. |
| `Archive.ReplaceNonLeading` | databricks/simple_autoloader.py:93 | A string that does not start with the pattern keeps its first character, and replacement goes on from the next one. |
| `Archive.ReplaceInsideString` | databricks/simple_autoloader.py:93 | An occurrence that is not at the front is replaced as well: `"xab".replace("ab", "")` is `"x"`. |
| `Archive.Split` | databricks/simple_autoloader.py:93 | `str.split` always yields at least one piece. |
| `Archive.SplitCutsAtLeftmost` | databricks/simple_autoloader.py:93 | `str.split` cuts at the leftmost occurrences without overlap: no occurrence of the pattern starts inside a piece of what remains to scan. Together with `JoinOfSplitRestores` this fixes the pieces. |
| `Archive.FirstPieceHasNoOccurrence` | databricks/simple_autoloader.py:93 | When the string does not start with the pattern, no occurrence starts inside its first piece. |
| `Archive.NoOccurrenceAfterFirst` | databricks/simple_autoloader.py:93 | An occurrence past the first character is an occurrence in the rest of the string. |
| `Archive.JoinExtendsFirst` | databricks/simple_autoloader.py:93 | Extending the first piece extends the joined string at its front. |
| `Archive.ReplaceIsJoinOfSplit` | databricks/simple_autoloader.py:93 | `s.replace(pat, rep) == rep.join(s.split(pat))`. |
| `Archive.JoinOfSplitRestores` | databricks/simple_autoloader.py:93 | Joining the pieces of `s.split(pat)` with `pat` restores `s`. |
| `Archive.ReplaceLeading` | databricks/simple_autoloader.py:93 | An occurrence at the front is replaced, and the scan resumes right after it. |
| `Archive.ArchivePath` | databricks/simple_autoloader.py:93 | The archive path always starts with the archive zone. |
| `Archive.ArchivePathOfLandedFile` | databricks/simple_autoloader.py:93 | If `file_path = landing_zone + rest` and `rest` does not contain `landing_zone`, the archive path is `archive_zone + rest`. |
| `Archive.ArchivePathOutsideLandingZone` | databricks/simple_autoloader.py:93 | A path that does not contain the landing zone is archived at the archive zone followed by the whole path. |
| `Archive.ExampleFileIsLanded` | databricks/simple_autoloader.py:19 | The example file is the landing zone followed by `edm_entity1.csv`, which does not contain the landing zone. |
| `Archive.ArchiveOfExampleFile` | databricks/simple_autoloader.py:19-20 | With the notebook's zones, `.../landing-zone/edm_entity1.csv` is archived at `.../archive-zone/edm_entity1.csv`. |
| `Autoloader.TargetTable` | databricks/simple_autoloader.py:90 | The target is `catalog.schema.` followed by the table name: its length is the three parts plus two dots, and it ends with the name. |
| `Autoloader.TargetTableInjective` | databricks/simple_autoloader.py:90 | Two different table names never share a target table. |
| `Autoloader.FileStep` | databricks/simple_autoloader.py:52-94 | One pass of the loop body. When its write raises, it records nothing, and the failure names the file. |
| `Autoloader.FileStepShape` | databricks/simple_autoloader.py:52-94 | The loop body raises exactly when a table name is found, the table exists and the write fails. Otherwise its first action is a skip or an append of the file. A second action is the move of the file to its archive path. |
| `Autoloader.Run` | databricks/simple_autoloader.py:50-95 | The whole loop (`RunFrom` from the first file) completes exactly when no listed file's write fails. |
| `Autoloader.RunFromFailureIsAStep` | databricks/simple_autoloader.py:50-95 | A run that does not complete ends with the failure of one of the listed files. |
| `Autoloader.CompletedStep` | databricks/simple_autoloader.py:51-94 | For any per-file step: a file the loop gets past extends the trace recorded so far by that file's own actions. |
| `Autoloader.ProcessLandingZone` | databricks/simple_autoloader.py:50-95 | The loop's trace and final status are exactly `Run`: skips, appends followed by moves, and a stop at the first failing write. |
| `Autoloader.OutcomesAreSkipsAndAppends` | databricks/simple_autoloader.py:51-94 | The outcomes of a trace are the paths of its skips and appends, and nothing else. |
| `Autoloader.OutcomesOfOneFile` | databricks/simple_autoloader.py:53-94 | A skip or an append of a file, followed at most by a move, reports exactly that file. |
| `Autoloader.OutcomesOfConcat` | databricks/simple_autoloader.py:51-94 | The outcomes of consecutive traces are consecutive. |
| `Autoloader.StepOutcome` | databricks/simple_autoloader.py:53-94 | A file the loop gets past reports exactly one outcome, for itself: a skip or an append. |
| `Autoloader.FileStepReportsItself` | databricks/simple_autoloader.py:53-94 | Every file the notebook's loop body gets past reports exactly itself as outcome. |
| `Autoloader.RunFromCompletesIff` | databricks/simple_autoloader.py:86-95 | For any per-file step, the run goes through the rest of the listing exactly when no remaining step fails its write. |
| `Autoloader.RunFromOutcomes` | databricks/simple_autoloader.py:51-95 | For a step under which every file reports itself, a run that does not stop reports one outcome per remaining listed file, in listing order. |
| `Autoloader.RunFromPrefix` | databricks/simple_autoloader.py:86-95 | For any per-file step, up to the first failing write the run behaves as the run over the files before that write. |
| `Autoloader.CompletedRunOutcomes` | databricks/simple_autoloader.py:50-95 | With no failing write the run completes, and its outcomes are exactly the listing, in order. |
| `Autoloader.FirstFailureStopsRun` | databricks/simple_autoloader.py:86-95 | The first failing write ends the run with that failure. Earlier files keep their outcomes, appends and moves, exactly as in a run over them alone. No later file is touched. |
| `Autoloader.ConsistentConcat` | databricks/simple_autoloader.py:51-94 | Joining two consistent traces gives a consistent trace. |
| `Autoloader.JustifiedInLeft` | databricks/simple_autoloader.py:51-94 | An action justified in a trace stays justified when later files add actions after it. |
| `Autoloader.JustifiedInRight` | databricks/simple_autoloader.py:51-94 | An action justified in a trace stays justified when earlier files' actions precede it. |
| `Autoloader.SkipConsistent` | databricks/simple_autoloader.py:54-59 | A skip whose reason applies is a consistent trace on its own. |
| `Autoloader.AppendThenMoveConsistent` | databricks/simple_autoloader.py:61-94 | A justified append followed by the move of that file to its archive path is a consistent trace. |
| `Autoloader.StepConsistent` | databricks/simple_autoloader.py:53-94 | One file's actions are consistent: a justified skip, or a justified append immediately followed by its move. |
| `Autoloader.RunFromConsistent` | databricks/simple_autoloader.py:51-95 | Every suffix of the run records only consistent actions. |
| `Autoloader.RunIsConsistent` | databricks/simple_autoloader.py:51-95 | Every skip has the reason that applies. Every append goes to `catalog.schema.<name>` of its own file, with `<name>` in the table list and the options of its format, and is immediately followed by the move of that file to its archive path. Every move immediately follows the append of its file. |
| `Autoloader.SkippedFileUntouched` | databricks/simple_autoloader.py:54-59 | A skipped file is never appended to any table and never moved during the run. |
| `Autoloader.RunOfOneFile` | databricks/simple_autoloader.py:50-95 | A listing of one file produces exactly that file's own actions and status. |
| `Autoloader.ExampleFileFacts` | databricks/simple_autoloader.py:19-22 | With the notebook's settings, `.../landing-zone/edm_entity1.csv` has table `edm_entity1`, target `entity_resolution_dev.bronze.edm_entity1`, format `csv` and archive path `.../archive-zone/edm_entity1.csv`. |
| `Autoloader.ExampleFileStep` | databricks/simple_autoloader.py:53-94 | The loop body appends that file to its table with the CSV options and then moves it, whenever its write succeeds. |
| `Autoloader.ExampleRun` | databricks/simple_autoloader.py:50-95 | A landing zone holding only `edm_entity1.csv`, with table `edm_entity1` present, is appended to `entity_resolution_dev.bronze.edm_entity1` with the CSV options, then moved to `s3://your-bucket/archive-zone/edm_entity1.csv`, and the run completes. This holds for any outcome of other writes, as long as this one succeeds. |

## Left out

- Spark reading and writing (lines 78-90) is an external engine. A single oracle `writeOk` says whether loading the file and appending it succeeds.
- The write's fixed settings are not recorded in the trace: the `delta` format, `append` mode and `mergeSchema` option (lines 87-89). The `source_file` column equal to the path is stated only in the comment on `Append`.
- The `load_timestamp` column (line 83) is wall-clock time and is not modelled.
- `spark.catalog.listTables` (line 26) and `dbutils.fs.ls` (line 50) are I/O. Their results are the inputs `tables` and `files`.
- `dbutils.fs.mv` (line 94) is recorded as a `Move` action and always succeeds. A failing move would also end the run after its append, and that case is not modelled.
- `print` logging has no behaviour to verify.
- `FileFormat.Lower`: only ASCII letters are lowered, not full Unicode `str.lower()`. Only the four ASCII names pass the membership test, and no non-ASCII character lowers to a letter of them, so the format is the same.
- `Archive.Replace`: requires a non-empty pattern. Python's insertion at every position for an empty pattern is not modelled, because the landing zone is a non-empty constant.
