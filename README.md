# File rename tool: a verified model of its core

`FileRenameTool` (`file_rename_tool_optimized.py`) is a desktop tool that
copies files or folders from a source folder into a target folder under new
names taken from a two-column table (key, target name). Optionally it packs
each folder into a zip, 7z or rar archive. This project models the
pipeline behind its three buttons, with the GUI, pandas and the file system
replaced by plain inputs:

- **load and match** (`load_files`): strip the cells, reject the table when
  two keys are equal ignoring case or two target names are equal, build the
  key→target mapping, then file every listed item under the longest key that
  matches it, with ties going to the earlier row. Files go under groups in
  order of first use; an item no key matches goes to the unmatched list.
- **preview** (`generate_preview`): give every grouped item a sanitised
  target name. The Skip policy marks every entry of a multi-entry group
  Skipped; the Number policy adds a `_{i+1}` suffix. Each row is then
  classified as PreviewConflict, TargetExists or Pending against the names
  already reserved in this run. The unmatched rows of the previous table
  are kept at the end.
- **execute** (`execute_rename`): process the Pending rows in table order.
  Each one becomes Success or `错误: ` followed by at most 60 characters of
  the message. The success, skipped and error counters are kept.
- **the name sanitiser** (`_sanitize_filename`) and the **1000-entry bound
  on the operation log** (`log_operation`).

Modules, one per file:

- `Text`: ASCII lower-casing, Python's `str.strip`, decimal digits and string order.
- `Paths`: `ntpath.splitext` and `ntpath.basename`. The tool runs on Windows, so both `/` and `\` separate components.
- `Sanitizer`
- `Validation`
- `Matcher`
- `Records`: the table's rows and statuses.
- `Preview`
- `Executor`
- `OperationLog`
- `Tool`: the `FileRenameTool` class, whose fields `mapping`, `matched`, `rows` and `operationLog` its methods update.
- `Sorting`, `Sequences`, `Optional`: helpers.

The loops of the source are methods proved against specification functions:

| method | proved equal to |
|---|---|
| `Matcher.MatchListing` / `FileAll` / `FindKey` | `GroupsOf`, `UnmatchedOf`, `Assign` |
| `Preview.BuildPreview` / `SkipRows` / `NumberRows` | `PreviewOf` and `Classify` |
| `Tool.FileRenameTool.ProcessRows` | `Executor.Executed`, `Tally`, `RunMessages` |

The properties the tool promises are lemmas about those functions.

The file system is a parameter throughout:

- A name's existence in the target folder during preview is an oracle `onDisk`.
- During execution, the existence of the target and of the source, and the outcome of the copy or archive operation, are the functions of an `Env`. They also receive the row's position, so the file system may change as the loop proceeds.
- Whether `7z.exe`/`Rar.exe` is on the PATH, and the error `os.makedirs` raises, are parameters of `ExecuteRename`.

Two points about the sanitiser:

- Its fallback name is `未命名` ("unnamed"), the Chinese text the code uses.
- The sanitiser is not idempotent in general. It is proved idempotent only for names that need no truncation.

## Model

| member | source | states |
|---|---|---|
| Sanitizer.Sanitize | file_rename_tool_optimized.py:329-345 | whatever the input, the result is non-empty, at most 255 characters long, and holds none of `<>:"/\|?*` and no code point 0-31 or 127 |
| Sanitizer.SanitizeSteps | file_rename_tool_optimized.py:331-345 | a name that cleans to nothing gives `未命名`; any other name gives its cleaned form, truncated |
| Sanitizer.SanitizeBlank | file_rename_tool_optimized.py:331-335 | a name made only of reserved, control and whitespace characters (the empty name included) gives `未命名` |
| Sanitizer.SanitizeShortKeepsAll | file_rename_tool_optimized.py:336-337 | a cleaned name of at most 255 characters is never truncated |
| Sanitizer.TruncateFacts | file_rename_tool_optimized.py:336-343 | past 255 characters, the result is the name cut to `255 - len(ext)` followed by the extension when the extension is shorter than 255, and otherwise the first 255 characters; truncation adds no character |
| Sanitizer.Truncate | file_rename_tool_optimized.py:337-343 | the result is at most 255 long, exactly 255 when the input was longer, and the input itself when it was not |
| Sanitizer.RemoveReservedChars | file_rename_tool_optimized.py:332 | a character survives exactly when it is not one of `<>:"/\|?*` |
| Sanitizer.RemoveControlsChars | file_rename_tool_optimized.py:333 | a character survives exactly when it is not a control character 0-31 or 127 |
| Sanitizer.CollapseDotsFacts | file_rename_tool_optimized.py:334 | the same characters occur, the first is kept, and no two dots remain adjacent |
| Sanitizer.CollapseSpacesFacts | file_rename_tool_optimized.py:335 | only non-whitespace characters of the input and plain spaces appear in the result; every non-whitespace character of the input does; a leading whitespace character becomes a space; no whitespace character stays next to another, no other whitespace than `' '` remains, and no `..` is created |
| Sanitizer.CollapseSpacesRun | file_rename_tool_optimized.py:335 | a whole run of whitespace, of any length and any whitespace characters, becomes exactly one space |
| Sanitizer.CollapseSpacesSplit | file_rename_tool_optimized.py:335 | collapsing two texts joined where no whitespace run is cut gives the two collapsed texts joined; with `CollapseSpacesRun` and `CollapseSpacesNone` this fixes the result for every text |
| Sanitizer.CollapseSpacesNone | file_rename_tool_optimized.py:335 | a text with no whitespace other than single plain spaces is left as it is |
| Sanitizer.CleanForm | file_rename_tool_optimized.py:332-335 | the cleaned name has none of the removed characters, no `..`, and no leading, trailing or doubled whitespace |
| Sanitizer.CleanFixesCleanForm | file_rename_tool_optimized.py:332-335 | cleaning a name already in clean form leaves it unchanged |
| Sanitizer.SanitizedDotsIsDot | file_rename_tool_optimized.py:329-345 | a sanitised name made only of dots is the single `.` |
| Sanitizer.SanitizeIdempotentWhenShort | file_rename_tool_optimized.py:329-345 | when no truncation happens, sanitising twice gives the same name as sanitising once |
| Paths.SplitExtShape | file_rename_tool_optimized.py:336 | `splitext` splits the name into two parts that concatenate back to it; the extension is a dot followed by neither dots nor separators; and there is one exactly when the last component has a dot preceded by a non-dot |
| Paths.SplitExtAppended | file_rename_tool_optimized.py:522-528 | for a stem and a format name without separators, and a format name without dots, splitting `stem + "." + format` gives the stem and `"." + format`, except that a stem made only of dots gives the whole name and no extension |
| Paths.RFindIsLast | file_rename_tool_optimized.py:336 | the index found holds the character and no later index does |
| Paths.BasenameHasNoSep | file_rename_tool_optimized.py:546 | `os.path.basename` leaves no separator |
| Paths.BasenameOfPlainName | file_rename_tool_optimized.py:546 | a name without separators or a colon is its own base name |
| Text.Strip | file_rename_tool_optimized.py:440-441 | the result is the input less its leading and trailing whitespace, and it neither starts nor ends with whitespace |
| Text.Take | file_rename_tool_optimized.py:651 | `s[:n]`: a prefix of the string, the whole string when it is no longer than `n`, and exactly `n` long otherwise |
| Validation.SurvivingSplit | file_rename_tool_optimized.py:439-441 | the surviving rows of two tables joined are those of the first followed by those of the second |
| Validation.SurvivingRow | file_rename_tool_optimized.py:439-441 | a single row survives, with both cells stripped, exactly when neither cell is missing, and otherwise is dropped |
| Validation.SurvivingKeepsPresentRows | file_rename_tool_optimized.py:439-441 | when no cell is missing, every row survives, in order, with both cells stripped |
| Validation.Validate | file_rename_tool_optimized.py:443-462 | the table fails with the duplicate key names exactly when two stripped keys are equal ignoring case; only otherwise does it fail with the duplicate target rows, exactly when two stripped targets are equal; on success the mapping is the surviving rows, with keys distinct ignoring case |
| Validation.KeyCheckFailsIff | file_rename_tool_optimized.py:443-445 | the list of offending names is non-empty exactly when some key clashes |
| Validation.DuplicateKeyNamesDetails | file_rename_tool_optimized.py:443-446 | the names reported are exactly the spellings of clashing keys, each once, in ascending order |
| Validation.TargetCheckFailsIff | file_rename_tool_optimized.py:452-453 | the list of offending rows is non-empty exactly when some target clashes |
| Validation.DuplicateTargetRowsDetails | file_rename_tool_optimized.py:452-455 | the rows reported are exactly the rows whose target clashes, ordered by target name |
| Validation.DuplicateTargetRowsPermutation | file_rename_tool_optimized.py:452-455 | the rows reported are a rearrangement of the clashing rows taken in table order: each is listed exactly as often as it occurs among them |
| Validation.MappingOnePerRow | file_rename_tool_optimized.py:462 | after successful validation the mapping has one entry per surviving row, mapping its key to its target |
| Validation.ToMapOnePerRow | file_rename_tool_optimized.py:462 | with distinct keys, the dictionary has as many entries as rows and maps each row's key to its target |
| Matcher.KeyOrder | file_rename_tool_optimized.py:475 | the key order is a permutation of the rows, sorted by decreasing length with ties in row order |
| Matcher.AssignMatches | file_rename_tool_optimized.py:477-488 | an item is assigned a key that matches it, and is left unassigned exactly when no key matches |
| Matcher.AssignIsLongestEarliest | file_rename_tool_optimized.py:475-488 | every other matching key is shorter than the assigned one, or as long and from a later row |
| Matcher.FirstMatchIsLongest | file_rename_tool_optimized.py:475-488 | in an order sorted longest first, the first matching key is longer than every other matching key, or as long and from an earlier row |
| Matcher.GroupsPartition | file_rename_tool_optimized.py:474-489 | a listed item is unmatched exactly when it is in no group; a group holds exactly the items assigned its key; group keys are distinct and groups are non-empty without repeats |
| Matcher.FindKey | file_rename_tool_optimized.py:479-488 | the inner loop finds exactly the key `Assign` chooses |
| Matcher.FileAll | file_rename_tool_optimized.py:477-489 | the outer loop builds exactly the groups and the unmatched list of the specification |
| Matcher.MatchListing | file_rename_tool_optimized.py:474-489 | sorting the keys and running the loops gives the specified groups and unmatched list |
| Matcher.ProcessedMembers | file_rename_tool_optimized.py:474-484 | `processed_items` holds exactly the listed items that matched a key |
| Records.LabelRoundTrip | file_rename_tool_optimized.py:16-22 | each status's text reads back as that status, and only an error status starts with `错误: ` |
| Preview.BaseTargetExtension | file_rename_tool_optimized.py:521-530 | without compression the base name is the sanitised mapped name, and it is safe; with compression its stem is the sanitised name's stem and its extension is `.` plus the format, except that a sanitised name `.` gives `..zip` (or `..7z`, `..rar`), which has no extension |
| Preview.GroupPlan | file_rename_tool_optimized.py:532-546 | one planned entry per item of the group, in order, under the group's key, skipped exactly when the group has several items and the policy is Skip |
| Preview.GroupTargets | file_rename_tool_optimized.py:532-546 | under Skip a multi-entry group keeps the base name on every entry; under Number entry `i` gets `sanitize(basename(main + "_" + (i+1) + ext))`; a single entry gets `sanitize(basename(base))`; every name not skipped is safe |
| Preview.PlanTargetsSafe | file_rename_tool_optimized.py:539-546 | every entry that is not skipped carries a safe name |
| Preview.ClassifyIff | file_rename_tool_optimized.py:548-558 | row `j` is numbered `j+1` and keeps its key and names; it is Skipped exactly when planned so, PreviewConflict exactly when an earlier Pending row has the same name ignoring case, TargetExists exactly when otherwise the name exists, and Pending otherwise |
| Preview.PendingDistinct | file_rename_tool_optimized.py:549-555 | no two Pending rows have names equal ignoring case |
| Preview.KeepUnmatched | file_rename_tool_optimized.py:511-512 | the kept rows are exactly the Unmatched rows of the old table |
| Preview.PreviewShape | file_rename_tool_optimized.py:511-560 | the matched rows come first, numbered 1, 2, ..., none Unmatched; the old Unmatched rows follow unchanged; Pending names are distinct ignoring case and safe |
| Preview.PreviewWellNamed | file_rename_tool_optimized.py:515-560 | in the whole preview table, Pending names are distinct ignoring case and safe |
| Preview.BuildPreview | file_rename_tool_optimized.py:515-560 | the loop over the groups, with its growing reserved set and counter, builds exactly the specified preview |
| Preview.SkipRows | file_rename_tool_optimized.py:532-537 | the Skip loop appends the group's rows as classified and keeps the reserved set and index in step |
| Preview.NumberedInjective | file_rename_tool_optimized.py:539-541 | under the Number policy, two entries of a group get the same numbered name only when they are the same entry |
| Preview.NumberRows | file_rename_tool_optimized.py:539-558 | the per-entry loop appends the classified rows, reserving each Pending name |
| Executor.TryRow | file_rename_tool_optimized.py:614-650 | the `try` block as the loop runs it: an existing target fails with `FileExistsError` before anything else, then a missing source with `FileNotFoundError`; the row succeeds exactly when both checks pass and the operation returns normally; every failure carries a non-empty message |
| Executor.AttemptOrder | file_rename_tool_optimized.py:614-650 | an existing target fails with `FileExistsError`; otherwise a missing source fails with `FileNotFoundError`; a row succeeds exactly when both checks pass and the operation completes; every failure has a message |
| Executor.ExecutedRow | file_rename_tool_optimized.py:602-655 | index, key and names are kept; a non-Pending row is unchanged; a Pending row becomes Success exactly when its attempt succeeds, and otherwise an error whose text is `错误: ` followed by the message cut to its first 60 characters (`error_msg[:60]`) |
| Executor.NoPendingAfter | file_rename_tool_optimized.py:597-655 | no Pending row remains after the loop |
| Executor.ExecutedIdempotent | file_rename_tool_optimized.py:566-570 | a second run changes nothing, whatever the options and file system then |
| Executor.TallyAgrees | file_rename_tool_optimized.py:593-655 | success + errors equals the number of Pending rows; skipped counts the rows neither Pending, Success nor error; the table gains exactly as many Success and error rows as counted |
| Executor.RunMessages | file_rename_tool_optimized.py:644-653 | the loop logs one line per Pending row |
| Executor.RowStep | file_rename_tool_optimized.py:604-653 | one more row adds one log line and one success or error when Pending, and at most one skip otherwise |
| OperationLog.AppendedBounded | file_rename_tool_optimized.py:87-88 | appending to a log within the bound keeps it within the bound and puts the message last |
| OperationLog.LogKeepsLatest | file_rename_tool_optimized.py:87-88 | any run of appends to a log within the bound leaves exactly the latest 1000 lines of the whole history, in order |
| Tool.KeysDistinct | file_rename_tool_optimized.py:462-475 | keys distinct ignoring case are distinct |
| Tool.ShowUnmatched | file_rename_tool_optimized.py:491-492 | the loop shows the unmatched names numbered from 1, keyed `N/A`, without target, as Unmatched |
| Tool.UnmatchedRowsWellNamed | file_rename_tool_optimized.py:491-492 | the table left by matching has no Pending row to clash |
| Tool.FileRenameTool.LogOperation | file_rename_tool_optimized.py:83-88 | the log becomes the old log plus the message, less its oldest line past 1000 |
| Tool.FileRenameTool.LoadFiles | file_rename_tool_optimized.py:417-497 | a rejected table leaves the mapping and the log, clears groups and table and returns the error; an accepted one becomes the mapping, the groups and unmatched rows are those of the matcher, and the scan summary is logged |
| Tool.FileRenameTool.Accept | file_rename_tool_optimized.py:462-497 | an accepted table becomes the mapping, the groups and unmatched rows are those the matcher gives for its keys, and the scan summary is logged |
| Tool.FileRenameTool.GeneratePreview | file_rename_tool_optimized.py:506-563 | without groups nothing changes; otherwise the table becomes the preview and its size is logged; Pending names stay distinct and safe |
| Tool.FileRenameTool.ExecuteRename | file_rename_tool_optimized.py:565-662 | without Pending rows or without consent nothing changes; a missing archiver or an unusable target folder is logged and stops the run before any row; otherwise the table is the executed table, the result holds the counters, and the log holds every row's line and then the summary |
| Tool.FileRenameTool.ProcessRows | file_rename_tool_optimized.py:593-655 | the loop leaves the executed table, the tallied counters and the log with one line per Pending row, still within the bound |

## Left out

- The tkinter interface: widgets, dialogs, the status bar, the progress bar (its percentage uses floating point), `show_log`, `reset_all` and the button-state updates.
- The guard of `load_files` that all five selections are made. The model starts where the table's two columns are at hand.
- Reading the table with pandas, the 10 MiB size limit, and the check that the named columns exist. The table is an input: a sequence of pairs of cells, each either missing or holding text. `astype(str)` of non-text cells is not modelled.
- The generic `except` of `load_files` ("加载文件失败"). It only reports exceptions from reading and listing, which the model does not have.
- `os.listdir`, `os.path.isfile` and `os.path.isdir`. The listing of files or folders is an input sequence of names.
- `os.path.exists`, `shutil.copy2`, `shutil.copytree`, `shutil.make_archive`, `subprocess.run`, `shutil.which` and `os.makedirs`. They are oracles or parameters; no real copying or archiving is modelled.
- `os.path.join` and `os.path.abspath`. Names are kept relative to the source and target folders, so the 7z/Rar command lines show relative paths.
- Decoding the archiver's error output with the system encoding. The outcome says whether any bytes were captured and gives their decoded text.
- Logging to a file, the timestamps of log lines, and the startup error handler. A log line is the message alone.
- UNC prefixes in `ntpath.basename`. The names it receives are built from sanitised names and hold no separator.
- Unicode case folding. `lower()` is modelled on ASCII letters only. Whitespace follows Python's `str.isspace` code points.
- Rows with fewer than five values in `execute_rename`. Every row the tool builds has five.
- Validation.DuplicateTargetRows: pandas' default sort is not stable, so the order of rows with equal target names is unspecified; the model lists them in row order, one admissible order.
- Sanitizer.SanitizeIdempotentWhenShort: idempotence is claimed only without truncation, because a cut at 255 can leave `..` or a trailing space behind.
- Tool.FileRenameTool.LoadFiles: the source clears the groups and the table before validating; the model clears them on both outcomes after validation, which leaves the same state.
- Tool.FileRenameTool.ProcessRows: the rows are updated in a local copy of the table that replaces the field after the loop, not in place; no other code observes the table meanwhile.
