# Malicious-package scanner: decision logic

`code/send.py` scans a corpus of npm package directories. Each project
directory under the base directory holds version subdirectories, or is itself
the single version. For every version, `scan_path` walks the directory tree.
It skips files whose extension is not on the text allow-list and files that
cannot be read. It truncates the rest to 100000 characters and asks a language
model for a JSON verdict. It stops at the first file whose verdict has a truthy
`is_malicious`. `main` appends one record per (project, version) and rewrites
the whole result list to a JSON file after every project, which makes the file
a checkpoint.

This project models that decision logic in Dafny:

- `types.dfy` (module `Types`): the verdicts and the outcomes of the two
  external oracles. The model endpoint is a function `string -> CallResult`,
  either a reply or a raised error. `json.loads` is a function
  `string -> ParseOutcome`. The module also holds the script's constants and
  `str.find`/`str.rfind`.
- `loader.dfy` (module `Loader`): `is_text_file` over a model of
  `os.path.splitext` and `str.lower`, and the truncation step.
- `interpreter.dfy` (module `Interpreter`): `extract_json`, and the
  `try`/`except` around the model call and the decode, which turns a failed
  call or an undecodable reply into a non-malicious verdict (fail-open).
- `scanner.dfy` (module `Scanner`): `scan_path`. A specification `Scan`
  gives its result over the files in walk order. `Calls` is the ghost log of
  the files handed to the model. The imperative `ScanFile`, `ScanDirectory`
  and `ScanPath` keep the shape of the source's nested loops and early return,
  and are proved against `Scan` and `Calls`.
- `driver.dfy` (module `Driver`): `main`. It covers the project and version
  layout as a directory tree, the records and the output file as a class whose
  state the checkpoint overwrites, and the imperative loops `ScanProject` and
  `ScanCorpus`, proved against the specification functions `ProjectRecords`,
  `CorpusRecords` and `Checkpoint`.

Two places that depend on the model's reply can abort the run, because no
`try` covers them:

- `result.get` at line 107, when the decoded reply is not a JSON object.
- `result["reason"]` at line 136, when the verdict has no `"reason"` key.

Both are modelled as the explicit outcome `Crash`, which aborts the whole run.
`result["is_malicious"]` at line 137 cannot fail: every dictionary `scan_path` returns has that key,
because it is either a verdict whose `is_malicious` was truthy or one of the
fixed dictionaries.

## Model

| member | source | states |
|---|---|---|
| Loader.ExtIndex | code/send.py:26 | where `os.path.splitext` cuts: a '.' with no '.' or '/' after it and a base name before it that is not all dots, or nowhere |
| Loader.SplitExt | code/send.py:26 | root and extension concatenate back to the name; a non-empty extension is a single '.' with no '.' or '/' after it, following a proper stem; an empty one means no dot of the name qualifies |
| Loader.NoCutPoint | code/send.py:26 | a name without an extension has no dot that could start one |
| Loader.ExtIndexAt | code/send.py:26 | the extension starts at a dot that has no dot or '/' after it and a base name before it that is not all dots |
| Loader.LowerCharAlphabet | code/send.py:26 | each capital letter lowercases to the small letter at the same place in the alphabet |
| Loader.Lower | code/send.py:26 | lowercasing keeps the length, leaves no capital letters, maps each capital to its small letter and keeps every other character |
| Loader.IsTextFile | code/send.py:25-26 | an eligible name has a proper stem and an extension of three to five characters |
| Loader.TextExtShape | code/send.py:20 | every allowed extension is a dot followed by lower-case letters |
| Loader.TextFileHasStem | code/send.py:25-26 | an eligible name ends in a suffix that lowercases to an allowed extension, after a proper stem |
| Loader.StemmedSuffixIsText | code/send.py:25-26 | any allowed suffix after a proper stem is the extension, so the name is eligible |
| Loader.IsTextFileIff | code/send.py:20-26 | a name is eligible if and only if it splits into a stem that is not all dots and a suffix that lowercases to one of TEXT_EXTS |
| Loader.UpperCaseExtensionIsText | code/send.py:25-26 | "A.JS" is eligible: the case of the extension is ignored |
| Loader.LastExtensionCounts | code/send.py:25-26 | "index.min.ts" is eligible: only the last extension counts |
| Loader.OtherExtensionIsNotText | code/send.py:25-26 | "notes.pdf" is not eligible |
| Loader.DotFileIsNotText | code/send.py:25-26 | ".js" is not eligible: a dot-file has no extension |
| Loader.Truncate | code/send.py:57-59 | the sent text is a prefix of the content, of length min(length, 100000) |
| Loader.TruncateKeepsShort | code/send.py:57-59 | content within the limit is unchanged, and truncation is idempotent |
| Interpreter.ExtractJson | code/send.py:29-35 | with a '{' followed later by a '}', the result is the piece of the text from the first '{' to the last '}'; otherwise the text unchanged |
| Interpreter.ExtractJsonIsSubstring | code/send.py:34-35 | the result is always a contiguous piece of the input |
| Interpreter.ExtractJsonIdempotent | code/send.py:34-35 | extracting twice gives the same as extracting once |
| Interpreter.ExtractJsonSurrounded | code/send.py:34-35 | an object with no '{' before it and no '}' after it is extracted exactly, whatever braces it contains |
| Interpreter.Interpret | code/send.py:90-105 | a failed call gives a non-malicious verdict with reason "检测失败: " plus the error; an undecodable reply gives the fixed non-malicious verdict; a decoded reply is passed on exactly as decoded, and a non-object or malicious result can only come from the decoder |
| Interpreter.NoBracesFallsBack | code/send.py:97-102 | a reply without '{' that does not decode gives the fixed fallback verdict |
| Scanner.Sample | code/send.py:56-59 | the text sent for a file is at most 100000 characters and a prefix of its content |
| Scanner.Examine | code/send.py:46-108 | the specification of one inner-loop iteration: skip, clear, flag with the verdict, or crash; its cases are stated by `ExamineCases` |
| Scanner.ExamineCases | code/send.py:46-107 | a file is skipped if and only if it is ineligible or unreadable; a decoded object flags it with that verdict if it is malicious and clears it otherwise; a decoded non-object crashes the scan; a failed call or an undecodable reply clears it |
| Scanner.Scan | code/send.py:44-109 | the specification of `scan_path`'s result over the files in walk order; stated by `ScanEndsAtFirstStop` and `ScanReportsFirstFlagged` |
| Scanner.Calls | code/send.py:44-108 | the specification of the files handed to the model, in order; stated by `CallsEndAtFirstStop` and `CallsOnlyEligible` |
| Scanner.FirstStop | code/send.py:107-108 | the position of the first file at which the scan returns: no earlier file stops it |
| Scanner.HandledMembers | code/send.py:46-54 | a file reaches the model if and only if it is in the list and is eligible and readable |
| Scanner.ScanEndsAtFirstStop | code/send.py:44-109 | the result is the outcome of the first file that stops the scan, or the fixed "not detected" verdict when none does |
| Scanner.CallsEndAtFirstStop | code/send.py:44-108 | the model sees exactly the eligible readable files up to and including the one that stops the scan |
| Scanner.ScanReportsFirstFlagged | code/send.py:107-109 | the scan returns a malicious verdict if and only if some file is flagged with it and no earlier file stopped the scan |
| Scanner.LaterFilesNeverExamined | code/send.py:107-108 | appending files after a stopping file changes neither the result nor the model calls |
| Scanner.SkippedFileIsInvisible | code/send.py:46-54 | removing a skipped file changes neither the result nor the model calls |
| Scanner.ClearedFileDoesNotStop | code/send.py:100-107 | removing a cleared file, including one whose call or decode failed, does not change the result |
| Scanner.ClearedFileAddsOneCall | code/send.py:90-107 | a cleared file reached by the scan adds exactly its own model call, and the scan goes on after it |
| Scanner.CallsOnlyEligible | code/send.py:46-54 | every file handed to the model is in the walk, eligible by name and readable |
| Scanner.EarlyExitExample | code/send.py:107-108 | with a cleared file and then two flagged ones, the second file's verdict is returned and the third file is never classified |
| Scanner.NoStopPassesThrough | code/send.py:44-45 | a directory in which no file stops the scan passes on to the next directory and adds its own calls |
| Scanner.UnboundClient | code/send.py:91 | the call as written always raises |
| Scanner.UnboundClientDetectsNothing | code/send.py:90-109 | as written, every scan returns "not detected" after handing every eligible readable file to the failing call |
| Scanner.ModelReplyFlagsFile | code/send.py:90-108 | with a working call, a file whose reply decodes to a malicious verdict is reported if the scan reaches it |
| Scanner.ScanFile | code/send.py:46-107 | one iteration of the inner loop does what the specification `Examine` says |
| Scanner.ScanDirectory | code/send.py:45-108 | the inner loop returns exactly when a file in the directory stops the scan, with the scan's result, and logs exactly the specified calls |
| Scanner.ScanPath | code/send.py:44-109 | the result and the log of model calls are those of the specification over the flattened walk |
| Driver.Walk | code/send.py:44 | the definition of top-down `os.walk` order: the directory's own file list, then the walks of its subdirectories in listing order |
| Driver.VersionLabel | code/send.py:135 | the version field is never empty, a subdirectory keeps its own name, and it reads "default" exactly for the project itself or a subdirectory named "default" |
| Driver.VersionRecords | code/send.py:128-138 | a completed project has one record per version, each labelled with the project and that version's label |
| Driver.VersionRecordStep | code/send.py:131-138 | after one more scan, a crash or a missing reason crashes the project; otherwise the version's record, with the scan's reason and flag, is appended |
| Driver.VersionRecordsShape | code/send.py:128-138 | a completed project has one record per version, in listing order, each the record of that version's scan |
| Driver.CrashedVersionCrashesProject | code/send.py:133-136 | a version whose record crashes crashes the project |
| Driver.DefaultVersionRecord | code/send.py:127-135 | a project without subdirectories yields exactly one record, labelled "default", from a scan of the project directory's own files |
| Driver.TopLevelFilesIgnored | code/send.py:121-129 | when a project has versions, the files directly inside it change no record |
| Driver.ResultsPrefix | code/send.py:113-138 | the results after the first k projects are a prefix of the final results, and a crash among them crashes the run |
| Driver.UnboundClientRecordsAllClean | code/send.py:112-138 | as written, and when every directory can be listed, the run never crashes and records every version as "not detected" |
| Driver.Checkpoint | code/send.py:140-145 | the run never removes the output file: it ends as it was, saved with some list, or damaged |
| Driver.WrittenCheckpointHoldsResults | code/send.py:140-145 | once project k completes and its write succeeds, the file holds exactly the records of projects 1..k, in order |
| Driver.SavedIsCompletedPrefix | code/send.py:140-145 | a list the run saved is the results after some number of completed projects, the last of which was written in full |
| Driver.CheckpointFrozenAfterCrash | code/send.py:133-145 | after a crash nothing more is written, and the file keeps what the projects before it left |
| Driver.AllWrittenSavesResults | code/send.py:140-145 | when every write succeeds, the file ends holding the results of all projects, or of those before the crash |
| Driver.OutputFile.Overwrite | code/send.py:141-145 | a full write replaces the file's contents with the list, a failed open leaves them as they were, and a failed dump leaves the file damaged (the state `Persist` gives) |
| Driver.ScanProject | code/send.py:121-138 | the version loop returns the project's records, or reports the crash if and only if the specification crashes |
| Driver.ScanCorpus | code/send.py:112-147 | the in-memory results are the corpus records whatever the writes do; the run crashes if and only if the specification does; the file ends in the state of the checkpoint specification |

## Left out

- The prompt text and the Ark client request (lines 61-95) are the model endpoint `classify`. It receives the truncated code, which the prompt embeds verbatim, and returns the stripped reply or the error. `.strip()` is inside that oracle.
- `json.loads` and `json.dump` (lines 98, 143) are the oracle `parse` and the abstract store `StoreState`. The serialised form of the records is not modelled.
- `os.walk`, `os.listdir`, `os.path.isdir`, and `open`/`read` with `errors="ignore"` are inputs: a directory tree `Dir` whose files carry their text, or `None` when reading raises. Listing order is taken as given. Symbolic links are not modelled.
- `os.listdir` at lines 116 and 122 is outside any `try`, so a base or project directory that cannot be listed (a `PermissionError`, say) aborts the run. The model assumes every directory can be listed. `os.walk` in `scan_path` (line 44) ignores listing errors, so a target subtree it cannot list simply contributes no files.
- `classify` gives one fixed reply or error per code sample for the whole run. The real endpoint at lines 91-95 samples its replies, and its failures (rate limits, timeouts) can be transient, so the same code can be flagged on one call and cleared on another. The lemmas that compare two file lists (`Scanner.LaterFilesNeverExamined`, `Scanner.SkippedFileIsInvisible`, `Scanner.ClearedFileDoesNotStop`, `Driver.TopLevelFilesIgnored`) assume the same replies in both.
- Logging, `tqdm` and the `ARK_API_KEY` lookup have no effect on the results and are not modelled.
- Scanner.Examine: `print(result)` at line 99 is not modelled, and it is inside the `try`. If printing raises, for example because stdout cannot encode the reply, the handler at lines 103-105 replaces even a malicious verdict with "检测失败: …" and the file is cleared. The model assumes printing never fails.
- Path construction with `os.path.join`, and the fixed `BASE_DIR` and `OUTPUT_PATH`, are not modelled. The output file is the `OutputFile` object.
- Loader.Lower: lowercases ASCII letters only. Python's `str.lower` also folds non-ASCII letters, and no allowed extension contains any.
- Loader.SplitExt: models POSIX `os.path.splitext` (separator '/'). Windows separators and drive letters are not modelled.
- Driver.RecordFor: records the truthiness of `is_malicious` as a boolean, not the raw JSON value that line 137 copies.
- Driver.RecordFor: assumes that `"reason"`, when present, is a string. Line 136 copies whatever JSON value is there.
- Driver.ScanCorpus: a crash ends the run and loses the in-memory results, as the uncaught exception does. Where the exception goes after that is not modelled.
- Driver.ScanCorpus: when a write fails, the loop simply goes on. The error message is not modelled.

## Findings

| source | as written | input that shows it | evidently intended | confidence | as-written member | corrected member |
|---|---|---|---|---|---|---|
| code/send.py:91 | `client` is never bound (line 12 only reads the API key), so every model call raises `NameError`. The generic handler at lines 103-105 turns this into a non-malicious verdict, and nothing is ever detected. | a project with one file `a.js` whose reply from a working model decodes to `{"reason": "...", "is_malicious": true}`: its record says "未检测到恶意代码" | a client built from the key, so replies reach `extract_json` and `json.loads`; the rest of the model uses an arbitrary endpoint `classify` | not executed | Driver.UnboundClientRecordsAllClean | Scanner.ModelReplyFlagsFile |
