# Agentic AI workflow — a Dafny model of its deterministic core

`agentic.py` drives a language model through a LangGraph pipeline. The pipeline turns a
software requirements document (SRS) into a generated FastAPI project:

1. plan the file structure;
2. create placeholder files;
3. write each file's code and collect a `requirements.txt`;
4. review and improve the code, with a human gate;
5. generate tests;
6. run the Python files;
7. zip the project.

This project models the deterministic logic inside those nodes and the state record they
update (`FileStructureState`). It then proves what that logic promises.

- **Wrappers, Exceptions.** `Option`, `Result` and `Outcome`, plus the Python exceptions the
  nodes can raise (`IndexError`, `TypeError`, `AttributeError`, `FileNotFoundError`).
- **PyText.** The parts of Python's `str` that the nodes rely on: `isspace`, `strip`,
  `split()`, `split(sep)`, `join`, `splitlines`, `in`, `endswith`, `os.path.basename`,
  `lower` and `dict.get`.
- **StrOrder.** Python's string order, and `sorted()` of a set of names, as a method
  proved to return the one ascending listing of that set.
- **Fences.** The filter that drops every line holding a triple backtick from the
  model's answer.
- **Manifest.** The import scan of `write_code_to_files`, and the `requirements.txt`
  body it writes.
- **Reducers.** The merge functions that `FileStructureState` declares for its channels.
- **Naming.** The placeholder header, the test file name and the archive name.
- **Execution.** One `run_code` pass over per-file run outcomes, and the retry guard
  (see Findings).
- **Steps.** What each node does to the project folder, as functions of the folder's
  contents (a map from relative path to text) and of the model's answers.
- **Workflow.** A class `Folder` for the project folder and a class `State` for
  `FileStructureState`. The nodes are methods that update them in place, and each is
  proved against the functions in `Steps`, `Manifest` and `Execution`.

The language model, the process runner and the human answer are passed in as functions
or values.

## Model

| member | source | states |
|---|---|---|
| PyText.TrimLeft | agentic.py:140 | the left-stripped text is no longer than the input and starts with a non-whitespace character, or is empty |
| PyText.TrimLeftMeaning | agentic.py:140 | left-stripping keeps a suffix of the input and drops only whitespace |
| PyText.TrimRight | agentic.py:140 | the right-stripped text is no longer than the input and ends with a non-whitespace character, or is empty |
| PyText.TrimRightMeaning | agentic.py:140 | right-stripping keeps a prefix of the input and drops only whitespace |
| PyText.Strip | agentic.py:140 | `strip()` leaves no whitespace at either end |
| PyText.StripPadded | agentic.py:140 | `strip()` yields a contiguous slice of the input with only whitespace before and after it |
| PyText.StripIdempotent | agentic.py:140 | stripping an already stripped answer changes nothing |
| PyText.Word | agentic.py:151 | the longest whitespace-free prefix; it is followed by whitespace or the end of the text |
| PyText.Tokens | agentic.py:151 | every token of `split()` is non-empty and has no whitespace; `PyText.TokensLayout` and `PyText.TokensOfLayout` state which tokens they are |
| PyText.TokensLayout | agentic.py:151 | the tokens of `split()`, in order, rebuild the line when laid out between whitespace runs that are non-empty between two tokens (and possibly empty at the ends) |
| PyText.TokensOfLayout | agentic.py:151 | conversely, any such layout of non-empty whitespace-free words splits back into exactly those words, so `split()` gives the line's words and nothing else |
| PyText.TokensNonEmpty | agentic.py:151-152 | a line with any non-whitespace character has a first token |
| PyText.IndexOf | agentic.py:142 | the position of the first occurrence of the separator |
| PyText.Split | agentic.py:142 | `split('\n')` gives at least one piece, and no piece holds the separator |
| PyText.SplitAfter | agentic.py:142 | a separator-free prefix followed by the separator splits off as the first piece |
| PyText.JoinSplit | agentic.py:143 | joining the pieces of a split with the separator restores the text |
| PyText.SplitJoin | agentic.py:143 | splitting a join of separator-free pieces gives the pieces back |
| PyText.LinesFrom | agentic.py:337 | no line of `splitlines()` holds a line boundary; `PyText.LinesFromLayout` states which lines they are |
| PyText.SplitLines | agentic.py:337 | no line of `splitlines()` holds a line boundary; `PyText.SplitLinesLayout` and `PyText.SplitLinesOfLayout` state which lines they are |
| PyText.LinesFromLayout | agentic.py:337 | the scanner's lines, each followed by the boundary it consumed, spell out the pending text and the rest of the input |
| PyText.SplitLinesLayout | agentic.py:337 | the lines of `splitlines()` are break-free and each is followed in the text by a boundary (`"\r\n"` counted once); only a non-empty last line may run to the end, so a text ending in a boundary yields no trailing empty line |
| PyText.SplitLinesOfLayout | agentic.py:337 | conversely, any such framing of a text splits back into exactly its lines, so `splitlines()` is determined by that layout |
| PyText.LinesFromIsSplit | agentic.py:337 | on text whose only boundary is `'\n'` and that does not end in one, the line scanner agrees with `split('\n')` |
| PyText.SplitLinesIsSplit | agentic.py:337 | the same agreement for `splitlines()` itself |
| PyText.Basename | agentic.py:339 | the basename has no `'/'`, ends the path, and is the whole path or follows a `'/'` |
| PyText.LowerChar | agentic.py:244 | an ASCII capital maps to the same letter in lower case; every other character is kept |
| PyText.LowerHasNoCapitals | agentic.py:244 | after `lower()` no ASCII capital is left |
| PyText.LowerIdempotent | agentic.py:244 | lowering twice is lowering once |
| PyText.LowerCaseBlind | agentic.py:244 | two texts lower to the same text exactly when they have the same length and differ only in ASCII case |
| StrOrder.LessIrreflexive | agentic.py:163 | no string sorts before itself |
| StrOrder.LessAsymmetric | agentic.py:163 | two strings never sort before each other |
| StrOrder.LessTransitive | agentic.py:163 | the string order is transitive |
| StrOrder.LessTotal | agentic.py:163 | any two distinct strings are ordered |
| StrOrder.Insert | agentic.py:163 | inserting a new name keeps the listing strictly ascending and adds exactly that name |
| StrOrder.SortedUnique | agentic.py:163 | two strictly ascending listings of the same names are equal |
| StrOrder.SortedExists | agentic.py:163 | every finite set of names has a strictly ascending listing |
| StrOrder.SortedOf | agentic.py:163 | `sorted(set)` is strictly ascending and lists exactly the set's members |
| StrOrder.SortedNames | agentic.py:163 | the method's result is the unique ascending listing of the set |
| Fences.KeepUnfenced | agentic.py:143 | no kept line holds a fence, and none is added |
| Fences.KeepUnfencedMembers | agentic.py:143 | a line is kept exactly when it was in the input and has no fence |
| Fences.KeepUnfencedAppend | agentic.py:143 | the filter works line by line and keeps the order |
| Fences.KeepUnfencedNoFence | agentic.py:143 | lines without fences pass through unchanged |
| Fences.KeepUnfencedIdempotent | agentic.py:143 | filtering twice is filtering once |
| Fences.StripFences | agentic.py:142-143 | the written text; `Fences.StripFencesLines`, `Fences.StripFencesFenceFree` and `Fences.StripFencesIdempotent` state its meaning |
| Fences.KeptLinesHaveNoNewline | agentic.py:142-143 | kept lines hold no newline |
| Fences.StripFencesLines | agentic.py:142-143 | the lines of the written text are exactly the input's unfenced lines, and none has a fence |
| Fences.StripFencesFenceFree | agentic.py:142-143 | whatever the model answers, the written text has no fenced line |
| Fences.StripFencesIdempotent | agentic.py:283-284 | stripping fences from already stripped text changes nothing |
| Fences.StripFencesSplitLines | agentic.py:337 | the written test text; `Fences.StripFencesSplitLinesFenceFree` and `Fences.StripFencesVariantsAgree` state its meaning |
| Fences.StripFencesSplitLinesFenceFree | agentic.py:337 | the `splitlines` variant leaves no fenced line either |
| Fences.StripFencesVariantsAgree | agentic.py:337 | on stripped non-empty text with only `'\n'` boundaries, the two filter variants agree |
| Manifest.Candidate | agentic.py:150-157 | a line raises only if it contains `"import "` or `"from "`, and then the IndexError names that line; a yielded name has no dot |
| Manifest.ModuleName | agentic.py:153 | the name is the token's prefix up to its first `.` and holds no `.` |
| Manifest.CandidateShape | agentic.py:150-157 | a line yields a name exactly when it contains `"import "` or `"from "`, its first token is `import` or `from`, and it has a second token; the name is that token up to its first dot. Such a line raises IndexError exactly when it has no token or its only token is `import` or `from` |
| Manifest.BareImportRaises | agentic.py:151-153 | the line `"import "` has the single token `import`, so `parts[1]` raises IndexError |
| Manifest.OtherLinesYieldNothing | agentic.py:156-157 | a line whose first token is neither `import` nor `from` yields nothing, wherever the words occur in it |
| Manifest.RelativeImportNotAdmitted | agentic.py:155-159 | `from . import x` yields the empty name, which never enters the set |
| Manifest.CandidateIsWord | agentic.py:151-155 | a yielded name has no whitespace, no dot and no newline |
| Manifest.ContributionMeaning | agentic.py:158-159 | a line adds a name exactly when it yields the name and the name is non-empty, not planned, not `"main"` and not described |
| Manifest.GatherMeaning | agentic.py:115 | a scan succeeds exactly when no part raises, and then the set is the union of the parts |
| Manifest.GatherErrorSticks | agentic.py:152-155 | once a prefix raises, the whole scan raises the same error |
| Manifest.GatherOrderFree | agentic.py:115 | success and the set depend only on which elements were scanned, not on their order |
| Manifest.LinesReqsMeaning | agentic.py:149-159 | one file's scan succeeds exactly when no line raises, and then holds exactly the names some line admits |
| Manifest.LinesReqsStep | agentic.py:149-159 | scanning one more line adds what it contributes, or ends the scan with its error |
| Manifest.ScanLines | agentic.py:149-159 | the loop returns the set built so far plus the file's names, or the IndexError of the first short `import`/`from` line |
| Manifest.FilesReqsStep | agentic.py:117-159 | scanning one more file adds its names, or ends the run with its error |
| Manifest.FilesReqsMeaning | agentic.py:115-159 | across files, the scan succeeds exactly when no file raises, and then holds exactly the names some line of some file admits |
| Manifest.FilesReqsOrderFree | agentic.py:115-159 | the manifest set does not depend on the order in which the files were scanned |
| Manifest.FilesReqsAreWords | agentic.py:151-159 | every collected name is a single word, so it fits on one manifest line |
| Manifest.ManifestBody | agentic.py:161-164 | the body is empty exactly when there are no names, and otherwise ends with a newline (`Manifest.ManifestRoundTrip` reads it back) |
| Manifest.ManifestBodyAppend | agentic.py:163-164 | writing one more name appends it and a newline |
| Manifest.ManifestBodyLines | agentic.py:163-164 | the manifest's lines are the names, then an empty piece after the last newline |
| Manifest.ManifestRoundTrip | agentic.py:161-164 | reading the manifest back gives the names in the written order |
| Manifest.RenderManifest | agentic.py:161-164 | the written body is `sorted(requirements)`, one name per line, each followed by a newline |
| Manifest.ManifestOfScan | agentic.py:115-164 | the manifest of a successful scan is strictly ascending, so free of duplicates, and lists exactly the found names |
| Reducers.MergeText | agentic.py:35 | the merged SRS text is the current text followed by the update |
| Reducers.MergeStructure | agentic.py:36 | the merged paths are the current ones then the new ones, and hold the members of both |
| Reducers.MergeDescriptions | agentic.py:37 | the merge keeps every key of both; on a shared key the newer value wins |
| Reducers.MergeAssociative | agentic.py:36-37 | the grouping of three updates does not matter |
| Reducers.UpdatesKeepEveryKey | agentic.py:37 | after any series of updates no key is lost, and each key holds its last update's value, or its current one if none mentions it |
| Reducers.TwoUpdatesCombine | agentic.py:37 | two partial updates for different files leave both entries |
| Reducers.GetAfterMerge | agentic.py:37 | `.get(path, default)` after a merge finds the update's entry, else the current one, else the default |
| Naming.PlaceholderHeader | agentic.py:99 | the header's length is that of the fixed prefix, the description and the fixed suffix; `Naming.HeaderRoundTrip` states that it is made of them, in that order |
| Naming.HeaderRoundTrip | agentic.py:99 | a placeholder starts with `# Description: `, ends with a blank line, and records its description |
| Naming.TestFileName | agentic.py:339 | the test name is `test_` followed by a name without `'/'` |
| Naming.TestFileNameIsBasename | agentic.py:339 | what follows `test_` is the whole last component of the path: the path itself, or what follows its last `'/'` |
| Naming.TestFileNameIsPy | agentic.py:307-339 | the test of a `.py` file is a `.py` file named `test_` plus the source's whole last path component |
| Naming.ZipName | agentic.py:437 | the archive name is the folder path followed by `.zip` |
| Execution.LastError | agentic.py:356-371 | the log of one pass; `Execution.NoErrorIffAllPassed`, `Execution.ErrorIsLastFailure` and `Execution.LastFailureIsError` state its meaning |
| Execution.NoErrorIffAllPassed | agentic.py:356-371 | no error is logged exactly when no `.py` file of the plan failed |
| Execution.ErrorIsLastFailure | agentic.py:356-371 | a logged error is the text of a failing `.py` file after which no `.py` file failed |
| Execution.LastFailureIsError | agentic.py:356-371 | conversely, the text of the last failing `.py` file is what the log holds |
| Execution.OnlyPythonFilesMatter | agentic.py:360-361 | paths not ending in `.py` never affect the log |
| Execution.RetryGuardAsWritten | agentic.py:374 | the guard as written: false on a falsy log, otherwise the comparison of the count with `os.getenv("MAX_RETRIES")` (`Execution.AsWrittenGuardRaises` gives its value) |
| Execution.AsWrittenGuardRaises | agentic.py:374 | as written, the guard raises TypeError exactly when a non-empty error was logged, whether the variable is set or not, and is false otherwise |
| Execution.RetryGuard | agentic.py:374-377 | with an integer bound, a retry is asked for exactly while a non-empty error is logged and the count is below the bound: never without an error, never once the count reaches the bound, and always otherwise |
| Execution.GuardsAgreeWithoutError | agentic.py:374 | the written guard raises exactly on a truthy log; on a falsy log it gives the corrected guard's answer, no retry |
| Steps.Placeholders | agentic.py:94-99 | the placeholders written; `Steps.PlaceholdersMeaning` states their meaning |
| Steps.PlaceholdersMeaning | agentic.py:94-99 | exactly the planned paths get a placeholder, each recording its description or the default text |
| Steps.PlaceholdersStep | agentic.py:94-99 | writing the next placeholder extends the prefix already written |
| Steps.PlaceholdersIdempotent | agentic.py:83-101 | creating the files twice leaves the folder as creating them once |
| Steps.Written | agentic.py:117-147 | the source files written; `Steps.WrittenMeaning` states their meaning |
| Steps.WrittenStep | agentic.py:117-147 | writing the next planned file extends the prefix already written |
| Steps.WrittenMeaning | agentic.py:117-147 | exactly the planned paths are written, each with its own generated code minus fenced lines, so none has a fenced line |
| Steps.CodeReqsStep | agentic.py:117-159 | a file whose scan raises ends the run with that error; otherwise the names grow by its own |
| Steps.CodeReqsMeaning | agentic.py:115-159 | a name is collected exactly when a line of some generated file imports it, and it is never a planned path, a described file or `"main"` |
| Steps.FirstMissing | agentic.py:208-212 | nothing is missing exactly when every planned path is in the folder; a reported path is planned and absent |
| Steps.FirstMissingIsFirst | agentic.py:208-212 | every planned path before the reported one is present |
| Steps.FirstMissingAt | agentic.py:208-212 | the first absent path, after present ones only, is the one reported |
| Steps.Reviews | agentic.py:208-227 | the reviews collected; `Steps.ReviewsMeaning` states their meaning |
| Steps.ReviewsStep | agentic.py:208-225 | reviewing the next file enters its review into those so far |
| Steps.ReviewsMeaning | agentic.py:208-227 | every planned file gets exactly one review, the stripped answer about its own code |
| Steps.GateAlwaysAsks | agentic.py:241-243 | with the counter absent or never below 0, the `>= 0` guard always holds, so the human is asked on every visit |
| Steps.ApprovedMeaning | agentic.py:244-245 | only `yes` in any case, with any surrounding whitespace, approves |
| Steps.Rewrite | agentic.py:280-284 | one file's new text; `Steps.ImprovedEffect` states that it has no fenced line |
| Steps.RewriteStep | agentic.py:250-288 | rewriting one more file with feedback, from its text as it was, extends the processed set |
| Steps.ImprovedEffect | agentic.py:250-288 | after the rewrite loop, no file is added, files without feedback are unchanged and rewritten files have no fenced line |
| Steps.TestsPass | agentic.py:307-342 | the test pass; `Steps.TestContent`, `Steps.TestsTouchOnlyTests`, `Steps.TestsCoverPython` and `Steps.TestsSucceedOnCompleteFolder` state its meaning |
| Steps.TestsTouchOnlyTests | agentic.py:307-342 | the test pass removes no file, and every file it adds or changes is the test of a planned `.py` path and has no fenced line |
| Steps.TestsCoverPython | agentic.py:307-342 | a completed pass leaves a test for every planned `.py` path |
| Steps.TestsSucceedOnCompleteFolder | agentic.py:307-312 | a folder holding every planned `.py` file never makes the pass fail |
| Steps.TestsKeepOthers | agentic.py:307-342 | a path that is not the test of a planned `.py` path keeps its presence and its text through the pass |
| Steps.TestContent | agentic.py:334-342 | when the folder holds every planned `.py` file and no planned path is a test path, `tests/test_<basename>` holds the fence-stripped generated test of the last planned `.py` file with that basename, made from that file's text |
| Workflow.Folder.constructor | agentic.py:91-92 | a new project folder is empty |
| Workflow.WriteSource | agentic.py:117-159 | one file is written as its stripped, unfenced generated code, and its names are added to those found so far, unless a line raises |
| Workflow.State.constructor | agentic.py:493-501 | the initial state holds the SRS text and folder path, an empty plan, no error, a zero retry count and no feedback |
| Workflow.State.PlanStructure | agentic.py:66-79 | a found plan replaces paths and descriptions; no plan leaves them as they were |
| Workflow.State.CreateFiles | agentic.py:83-101 | the folder gains exactly the planned placeholders, and nothing else changes |
| Workflow.State.WriteSources | agentic.py:115-159 | the names found are the scan of all generated files; on success every planned file is written, and on an IndexError the files are written up to and including the first file whose scan raises, every earlier file having scanned cleanly |
| Workflow.State.WriteCode | agentic.py:106-164 | on success the folder holds the written sources and `requirements.txt` with the sorted names; otherwise the node raises the scan's error, with the files written up to and including the first file whose scan raises |
| Workflow.State.ReflectOnCode | agentic.py:199-228 | with every planned file present, the stored feedback is their reviews; otherwise FileNotFoundError for the first missing one, the feedback untouched |
| Workflow.State.ImproveCode | agentic.py:239-290 | the counter goes up by one; an answer other than yes changes no file; missing feedback raises AttributeError; otherwise exactly the files with feedback are rewritten, or FileNotFoundError names a feedback path absent from the folder |
| Workflow.State.GenerateTests | agentic.py:294-345 | the folder and the outcome are those of the test pass over the plan |
| Workflow.State.RunCode | agentic.py:349-377 | the log is the last failing `.py` file's error, the retry count goes up by exactly one, and the retry decision is the corrected guard |
| Workflow.State.CreateZip | agentic.py:431-441 | the recorded archive path is the folder path with `.zip` appended |

## Left out

- Every call to the language model in `write_code_to_files`, `reflect_on_code`, `improve_code` and `generate_tests` (agentic.py:139, 224, 280, 334) becomes an injected function of the prompt's variable parts: `gen(description, path)`, `review(code)`, `improve(code, feedback, path)` and `writeTest(code)`. Each gives the answer's content.
- `re.search` and `json.loads` in `srs_to_file_structure` (agentic.py:66-72) become an `Option<Plan>` argument, and so does the model call before them (agentic.py:63). A payload that is not valid JSON (a JSONDecodeError) or lacks `files` or `descriptions` (a KeyError) is not modelled.
- Package installation, the virtual environment and the `.env` file (agentic.py:166-192) are process and OS plumbing, so they are left out.
- The file system is a map from path, relative to the project folder, to text. `os.makedirs`, directory creation and `os.path.join` with absolute or `..` paths are left out.
- `Workflow.State.ReflectOnCode`, `Workflow.State.ImproveCode` and `Workflow.State.GenerateTests` hand the stored text to the model verbatim. In the source, the reads at agentic.py:211, 253 and 311 open files in text mode, which turns `"\r\n"` and a lone `"\r"` into `"\n"`. Such characters can be stored, since `strip()` trims only the ends and `split('\n')` keeps `"\r"` inside lines. So `Steps.ReviewsMeaning`, `Steps.RewrittenFrom`, `Steps.ImprovedEffect` and `Steps.TestContent` state what the model is asked about the stored text, not about the newline-normalised text. The encodings are also left out: the reads at agentic.py:211 and 311 and the writes at agentic.py:98 and 287 use the locale's encoding.
- `shutil.make_archive` (agentic.py:439): the archive's contents are not modelled, only its recorded name.
- The LangGraph graph (agentic.py:444-470) is library runtime and is left out. This covers the order of the nodes, and the fact that both edges out of `improve_code` and out of `run_code` are taken whatever the state. It also covers how LangGraph applies the reducers when a node returns the whole state.
- `input()` (agentic.py:244, 247): the first answer is a parameter. The second prompt only waits, so it is dropped.
- The iteration order of `code_feedback.items()` (agentic.py:250) is chosen nondeterministically. The contract of `Workflow.State.ImproveCode` holds for every order.
- `Workflow.State.ImproveCode`: when a file with feedback is missing, the contract states only that some processed subset of the feedback was rewritten, not which one. That depends on the dictionary order.
- `reflect_on_errors` (agentic.py:381-407) is left out. On a falsy `error_log` it returns the state unchanged (agentic.py:386-388), and that is the only case in which it completes: on a truthy log it calls `.items()` on a string and raises AttributeError (agentic.py:391). Since `run_code` itself raises TypeError whenever the log is truthy (agentic.py:374), every run that reaches it has a falsy log and it acts as the identity.
- `final_execution` (agentic.py:411-425) only starts processes, so it is left out.
- IPython display (agentic.py:474-479), langsmith tracing (agentic.py:18-20), `print` and reading `extracted_text.txt` (agentic.py:484-489) are left out.
- main.py is not part of this model.
- `Execution.LastError`: a run outcome is a function of the path alone. A process's dependence on the file's current text, the environment or time is not modelled.
- `Workflow.State.RunCode`: it uses the corrected retry guard. As written, the node raises TypeError at agentic.py:374 whenever a non-empty error was logged (see Findings). Either way both branches return the same state, so no bound on retries is enforced.
- `PyText.Basename` follows POSIX `os.path`, splitting only at `'/'`. On Windows, which the source provides for (agentic.py:179), `os.path.basename` also splits at `'\\'` and after a drive's `':'`.
- `PyText.Lower` folds only ASCII letters, whereas Python's `str.lower` is Unicode-wide. No non-ASCII character lowers to `y`, `e` or `s`, so `Steps.ApprovedMeaning` is unaffected.
- `Steps.TestContent` states a test's text only when no planned path is itself the test path of a planned Python file. Otherwise an earlier test write can replace the source that a later path reads; `Steps.TestsPass` models that, but no lemma describes it.
- `Steps.TestsPass`: two planned Python files with the same basename write the same test path, and the later write wins. That is what the map update models; the collision is not reported.

## Findings

| source | as written | input that shows it | evidently intended | confidence | as-written member | corrected member |
|---|---|---|---|---|---|---|
| agentic.py:374 | `state["retry_count"] < os.getenv("MAX_RETRIES")` compares an `int` with a `str` (or with `None` when the variable is unset), which raises TypeError; the comparison is evaluated whenever `error_log` is non-empty | any pass where a `.py` file fails with non-empty stderr, e.g. `error_log == "Traceback ..."` | compare with the bound read as an integer, `int(os.getenv("MAX_RETRIES"))` | not executed | Execution.AsWrittenGuardRaises | Execution.RetryGuard |
