# novel_splitter, modelled in Dafny

`novel_splitter` cuts a long novel held in one text file into one file per
chapter. Its `NovelSplitter` class runs four stages as a LangGraph state graph:

1. **Detection.** A regular expression and a keyword list pick candidate heading lines.
2. **Confirmation.** Each candidate goes to a language model, which says whether it is a chapter title.
3. **Approval.** The operator approves the confirmed list at the console, unless `auto_confirm` is set.
4. **Split.** The split writes the segment between consecutive headings into `<output_dir>/splitdata/<task_id>/<n>.txt`, and writes a JSON metadata record to `<output_dir>/metadata/<task_id>-metadata.json`.

The package also has a file-name cleaner, `clean_filename`.

This project models those stages, the two routing edges, the graph wiring and
`clean_filename`.

Everything outside the program becomes an input of the model:

- the language model's verdicts;
- the console answer;
- the file system's reads and writes;
- the fresh task identifier;
- the clock.

The modules follow the program's structure:

- `PyStr` (`pystr.dfy`): the Python string built-ins the code relies on. These are `str.strip` with a character set (built from two one-sided trims, the leading one also standing for the pattern's leading `\s*`), ASCII `lower`, `in` on strings, slicing with clamping and negative bounds, `replace`, `str(n)` for naturals, `posixpath.join` and `basename`.
- `GraphState` (`graph_state.dfy`): the `(line, text)` candidate pair and the workflow state record. Also the ordering and subsequence predicates.
- `Detector` (`detector.dfy`): stage 1. The loop is a method, proved equal to the function `Detected`.
- `Confirmer` (`confirmer.dfy`): stage 2. The loop is a method, proved equal to `Confirmed`.
- `HumanGate` (`human_gate.dfy`): stage 3, a pure decision.
- `Splitter` (`splitter.dfy`): stage 4. The chapter loop is a method, proved equal to the record functions over the chapters whose writes succeed.
- `Workflow` (`workflow.dfy`): the graph as an explicit state machine, IDENTIFY -> CONFIRM -> (END | PROMPT) -> (END | SPLIT) -> END. Its run is proved equal to a straight-line pipeline, and properties of whole runs are proved about it.
- `FileNames` (`filenames.dfy`): `clean_filename`.

## Model

| member | source | states |
|---|---|---|
| PyStr.TrimLeft | src/novel_splitter/core.py:68 | the skip of the pattern's leading `\s*`, and the first half of `strip` (the code never calls `lstrip`): the result is a suffix, every dropped character is in the set, and the result does not start with one |
| PyStr.TrimRight | src/novel_splitter/core.py:73 | the trailing half of `strip` (the code never calls `rstrip`): a prefix, every dropped character is in the set, and the result does not end with one |
| PyStr.StripIsTrimmedSlice | src/novel_splitter/core.py:73 | `strip` keeps one contiguous piece whose two ends are outside the set; everything dropped on either side is in the set |
| PyStr.StripIsBothTrims | src/novel_splitter/core.py:73 | `strip` equals the trailing trim after the leading trim |
| PyStr.StripFixedPoint | src/novel_splitter/utils.py:18 | stripping leaves a string unchanged exactly when it is empty or neither end is in the set |
| PyStr.Lower | src/novel_splitter/core.py:84 | same length; each character is lowered independently |
| PyStr.ContainsAt | src/novel_splitter/core.py:84 | an occurrence of the keyword at any offset makes `kw in text` hold |
| PyStr.ContainsIffOccurs | src/novel_splitter/core.py:84 | `kw in text` holds exactly when the keyword occurs in the text at some offset |
| PyStr.PySlice | src/novel_splitter/core.py:192 | `s[a:b]` is the plain slice in range; it is empty when the range starts at or past the end or is reversed; `b` past the end clamps to the end |
| PyStr.PyPrefix | src/novel_splitter/utils.py:22 | `s[:m]` is a prefix of length `m` in range; a negative `m` drops `-m` characters from the end |
| PyStr.ReplaceChar | src/novel_splitter/utils.py:15 | `replace` changes exactly the occurrences of the one character, position by position |
| PyStr.ReplaceAbsent | src/novel_splitter/utils.py:15 | replacing an absent character changes nothing |
| PyStr.NatToString | src/novel_splitter/core.py:195 | `str(n)` is a non-empty run of decimal digits without a leading zero |
| PyStr.DecimalRoundTrip | src/novel_splitter/core.py:195 | reading the digits of `str(n)` back gives `n` |
| PyStr.NatToStringInjective | src/novel_splitter/core.py:195 | distinct numbers give distinct strings |
| PyStr.PathJoin | src/novel_splitter/core.py:199 | an absolute second part replaces the first; otherwise the parts are concatenated, with one `/` between them unless the first part is empty or already ends in `/` |
| PyStr.Basename | src/novel_splitter/core.py:212 | the result is the suffix after the last `/` and contains no `/` |
| GraphState.SubsequenceKeepsAscending | src/novel_splitter/core.py:101-116 | a subsequence of an ascending candidate list is ascending, and its members are members of the list |
| Detector.NumeralsThenZhangIff | src/novel_splitter/core.py:68 | the numeral matcher accepts exactly the strings that open with one or more characters of the class `[一二三四五六七八九十百千万\d]` followed by `章` |
| Detector.EnglishHeadingIff | src/novel_splitter/core.py:68 | the English matcher accepts exactly the strings that open with `chapter` in any case, any number of whitespace characters, then a digit |
| Detector.MatchesChapterPatternIff | src/novel_splitter/core.py:68 | the pattern accepts exactly the strings that, after some whitespace, open with one of the two headings; taking the whitespace greedily loses no match |
| Detector.ChineseHeadingExample | src/novel_splitter/core.py:78 | `第一章 开端` matches the pattern |
| Detector.EnglishHeadingExample | src/novel_splitter/core.py:78 | `CHAPTER 12` matches the pattern, the word being matched in any case |
| Detector.EmptyNumeralsExample | src/novel_splitter/core.py:78 | `第章` does not match: the numeral run must not be empty |
| Detector.Classify | src/novel_splitter/core.py:73-86 | at most one candidate per line; there is one exactly when the stripped line is non-blank and meets rule 1 (pattern, under 50 characters) or rule 2 (keyword, under 30); it pairs the line index with the stripped text |
| Detector.IdentifyCandidates | src/novel_splitter/core.py:66-86 | the loop returns `Detected(lines)`; that list is strictly ascending, and each entry is a line of the file that meets a rule |
| Detector.DetectedAscending | src/novel_splitter/core.py:72 | candidates are strictly ascending by line index, so no index repeats; every index is below the line count |
| Detector.DetectedSound | src/novel_splitter/core.py:73-86 | each candidate's text is its line stripped, is non-empty and meets one of the two rules |
| Detector.DetectedComplete | src/novel_splitter/core.py:72-86 | every line that meets a rule after stripping is found, with its index and stripped text |
| Detector.BlankLineSkipped | src/novel_splitter/core.py:74-75 | a line made only of whitespace never becomes a candidate |
| Detector.AscendingIsCanonical | src/novel_splitter/core.py:91 | two strictly ascending lists with the same members are equal, so `sorted(set(...), key=index)` returns the loop's list unchanged |
| Detector.IdentifyStage | src/novel_splitter/core.py:70-93 | a missing file gives no candidates; any other read failure escapes the stage; a readable file gives `Detected` of its lines |
| Confirmer.ConfirmWithLlm | src/novel_splitter/core.py:98-125 | the loop returns `Confirmed`; a candidate is kept exactly when it is a candidate whose verdict is truthy; the result is a subsequence of the candidates, in order |
| Confirmer.ConfirmedAppend | src/novel_splitter/core.py:101-122 | confirmation distributes over concatenation: each candidate is judged on its own |
| Confirmer.ConfirmedMembership | src/novel_splitter/core.py:115-116 | `c` is confirmed exactly when `c` is a candidate and its verdict is truthy |
| Confirmer.ConfirmedIsSubsequence | src/novel_splitter/core.py:101-116 | the confirmed list is the candidate list with elements deleted, in the same order |
| Confirmer.ConfirmedAscending | src/novel_splitter/core.py:101-116 | ascending candidates give ascending confirmed chapters |
| Confirmer.FailureDropsOnlyThatCandidate | src/novel_splitter/core.py:119-122 | an exception on one candidate drops that candidate only; the others are judged as if it were absent |
| HumanGate.PromptUser | src/novel_splitter/core.py:129-155 | `auto_confirm` gives true; otherwise the result is true exactly for an affirmative typed answer; an interrupt gives false; end of input escapes the stage |
| HumanGate.AffirmativeAnswers | src/novel_splitter/core.py:149-150 | the accepted answers are exactly `y` and `yes` in any mix of case |
| Splitter.Segments | src/novel_splitter/core.py:189-192 | helper: one segment per chapter, segment `i` being chapter `i`'s slice; what the segments are is stated by `SegmentsExact` and `SegmentsPartition` |
| Splitter.PySliceAdjacent | src/novel_splitter/core.py:191-192 | the slices of two adjacent ranges concatenate to the slice of their union |
| Splitter.SegmentsExact | src/novel_splitter/core.py:187-192 | for ascending boundaries, segment `i` is `lines[b_i:b_{i+1}]` and the last is `lines[b_{k-1}:]`; each opens with its chapter's line |
| Splitter.SegmentsPartition | src/novel_splitter/core.py:187-192 | the segments concatenated in order give the lines from the first boundary on; no gaps and no overlaps |
| Splitter.SegmentsCoverFromFirstChapter | src/novel_splitter/core.py:187-192 | the same, stated as `lines[b_0:]` for boundaries inside the file: the lines before the first chapter are dropped |
| Splitter.RelativePathShape | src/novel_splitter/core.py:199-204 | for a single-component task identifier, the recorded path is `../splitdata/<task_id>/<i+1>.txt` with forward slashes |
| Splitter.FileNameNumbers | src/novel_splitter/core.py:195 | a chapter's file name is a decimal numeral followed by `.txt`, and the numeral reads back as the 1-based chapter number |
| Splitter.FileNamesDistinct | src/novel_splitter/core.py:195 | different chapters get different file names |
| Splitter.WrittenIndices | src/novel_splitter/core.py:201-207 | the numbers of the chapters whose write succeeds, strictly ascending, each one present |
| Splitter.AllWritten | src/novel_splitter/core.py:201-207 | when every write succeeds, every chapter number is present, in order |
| Splitter.RecordsSnoc | src/novel_splitter/core.py:202-205 | one more written chapter extends the files, `split_files` and `chapter_titles` by its own entry |
| Splitter.RecordsStep | src/novel_splitter/core.py:201-207 | one loop turn extends all three lists when its write succeeds and leaves them alone when it fails |
| Splitter.UpToIsWritten | src/novel_splitter/core.py:189-207 | after `k` turns, the loop's lists are the records of the chapters written among the first `k` |
| Splitter.WriteChapters | src/novel_splitter/core.py:183-207 | the chapter loop's files, `split_files` and `chapter_titles` are exactly those of the chapters whose write succeeded, in chapter order |
| Splitter.MetadataNamesDistinct | src/novel_splitter/core.py:221 | different task identifiers give different metadata file names |
| Splitter.SplitStage | src/novel_splitter/core.py:168-231 | the stage writes nothing and returns no metadata exactly when directory creation or the re-read fails |
| Splitter.PickedIsSubsequence | src/novel_splitter/core.py:204-205 | picking at ascending positions gives a subsequence |
| Splitter.RecordsComplete | src/novel_splitter/core.py:201-205 | every chapter whose write succeeded has a file |
| Splitter.RecordsPaired | src/novel_splitter/core.py:204-205 | files, `split_files` and `chapter_titles` have one length; entry `j` of each describes the same written chapter, and those chapters ascend |
| Splitter.FilesOpenWithTitles | src/novel_splitter/core.py:189-205 | every written file opens with the line its recorded title was stripped from |
| Splitter.RecordedTitlesInOrder | src/novel_splitter/core.py:205 | `chapter_titles` is the chapter titles with those of failed writes deleted, in order |
| Splitter.RecordsAllWritten | src/novel_splitter/core.py:189-207 | when every write succeeds, file `k` is chapter `k`'s segment under `k+1.txt` with its path and title, and the files cover the source from the first chapter on |
| Splitter.FileContents | src/novel_splitter/core.py:203 | helper: one content per file, in file order; used by the coverage statements of `RecordsAllWritten` and `CoverFromFirstChapter` |
| Splitter.RecordsFaithful | src/novel_splitter/core.py:187-207 | for ascending chapters read from the lines: one path per file, each file opens with its title, and with every write successful the files hold the source from the first chapter on |
| Workflow.GuardsReadOneField | src/novel_splitter/core.py:235-249 | helper (the routing itself is stated by `Successor` and `SplitReachedExactly`): CONFIRM's guard holds exactly when something is confirmed and PROMPT's exactly when the operator approved; no other field of the state changes either answer |
| Workflow.Successor | src/novel_splitter/core.py:274-286 | the edges: IDENTIFY goes to CONFIRM; CONFIRM goes to PROMPT exactly when something is confirmed, else END; PROMPT goes to SPLIT exactly when approved, else END; SPLIT goes to END; every edge lowers the rank |
| Workflow.RunNode | src/novel_splitter/core.py:268-271 | a node raises exactly in detection with an unreadable file, or at the prompt on end of input; only SPLIT produces output; no node changes the path, directory, flag, task identifier or start time |
| Workflow.Drive | src/novel_splitter/core.py:274-286 | helper: running the graph from a node never yields the not-started outcome; what a run does is stated by `RunIsPipeline` and the lemmas after it |
| Workflow.InitialStateFields | src/novel_splitter/core.py:260-301 | the initial state holds no candidates, no confirmed chapters and no approval, records the arguments, the task identifier and the start time, and defaults the output directory to `<cwd>/results` (`/results` when the working directory is `/`) |
| Workflow.Run | src/novel_splitter/core.py:251-308 | `run` refuses to start exactly when the source path does not exist |
| Workflow.DriveFromSplit | src/novel_splitter/core.py:286 | from SPLIT the run writes once and ends |
| Workflow.DriveFromPrompt | src/novel_splitter/core.py:281-285 | from PROMPT the run escapes, ends with approval false, or goes on to write, as the gate decides |
| Workflow.DriveFromConfirm | src/novel_splitter/core.py:276-280 | from CONFIRM the run ends when nothing is confirmed, and otherwise continues at PROMPT |
| Workflow.DriveFromIdentify | src/novel_splitter/core.py:274-275 | from IDENTIFY the run escapes when detection raises, and otherwise continues at CONFIRM |
| Workflow.RunThroughConfirm | src/novel_splitter/core.py:274-275 | once detection has a candidate list, the whole run is CONFIRM's run preceded by IDENTIFY |
| Workflow.RunIsPipeline | src/novel_splitter/core.py:251-308 | the graph run equals the stages called one after another with the two guards between them |
| Workflow.SplitReachedExactly | src/novel_splitter/core.py:235-249 | SPLIT is entered exactly when the source exists, detection does not raise, something is confirmed and the gate approves |
| Workflow.VisitedAlongThePath | src/novel_splitter/core.py:274-286 | the nodes entered are a non-empty prefix of IDENTIFY, CONFIRM, PROMPT, SPLIT |
| Workflow.NothingConfirmedEndsEarly | src/novel_splitter/core.py:237-241 | with nothing confirmed, the run ends after CONFIRM and writes nothing |
| Workflow.DeclineWritesNothing | src/novel_splitter/core.py:245-249 | when the operator declines or interrupts, the run ends after PROMPT and writes nothing |
| Workflow.RunNodeKeepsConsistent | src/novel_splitter/core.py:61-155 | every node keeps the candidates ascending, true lines of the file, and the confirmed list a subsequence of them |
| Workflow.DriveKeepsConsistent | src/novel_splitter/core.py:274-286 | so does every run from any node |
| Workflow.FinalStateConsistent | src/novel_splitter/core.py:292-304 | a finished run leaves a consistent state whose confirmed chapters ascend |
| Workflow.OutputOnlyAfterApproval | src/novel_splitter/core.py:172-180 | files and metadata appear only from a split of an approved, non-empty chapter list; that split writes nothing exactly when the directories or the re-read fail |
| Workflow.SplitFilesOpenWithTheirTitles | src/novel_splitter/core.py:157-231 | a split of a consistent state yields one `split_files` entry per file; each file opens with its recorded title; with every write successful, the files hold the source from the first chapter on |
| Workflow.ChapterFilesOpenWithTheirTitles | src/novel_splitter/core.py:251-308 | the same for a whole run whose split re-reads what detection read |
| FileNames.RemoveIllegal | src/novel_splitter/utils.py:14 | no character of the result is `\ / * ? : " < > \|`, and every one comes from the input |
| FileNames.RemoveIllegalChar | src/novel_splitter/utils.py:14 | the deletion keeps a single legal character and drops a single illegal one |
| FileNames.RemoveIllegalAppend | src/novel_splitter/utils.py:14 | the deletion distributes over concatenation; with the previous row, every legal character is kept, in order |
| FileNames.RemoveIllegalFixedPoint | src/novel_splitter/utils.py:14 | the deletion changes a string exactly when it holds an illegal character |
| FileNames.Sanitize | src/novel_splitter/utils.py:14-15 | the result has the length of what the deletion keeps and lines up with it position by position, with each blank and tab turned into `_` in place; no character of it is illegal, a blank or a tab |
| FileNames.SanitizeFixedPoint | src/novel_splitter/utils.py:14-15 | a title without illegal characters, blanks or tabs is not changed |
| FileNames.TrimmedFacts | src/novel_splitter/utils.py:18-22 | after stripping and truncation: only safe characters that come from the title or are `_`; no leading `_`, `.` or blank; at most `max_length` characters for a non-negative bound |
| FileNames.CleanFilename | src/novel_splitter/utils.py:6-24 | the result is never empty, has only safe characters and never starts with `_`, `.` or a blank; for `max_length >= 0` it fits the bound unless it is `untitled`; it is `untitled` exactly when the cleaned, truncated string is empty or is itself `untitled` |
| FileNames.FallbackIsClean | src/novel_splitter/utils.py:24 | `untitled` is made of safe characters and has no edge character at either end |
| FileNames.CleanFixedPoint | src/novel_splitter/utils.py:14-24 | a title other than `untitled` comes back unchanged exactly when it is non-empty, fits the bound, has only safe characters and has no `_`, `.` or blank at either end |
| FileNames.UnchangedIsClean | src/novel_splitter/utils.py:14-22 | a title that every step leaves alone is clean |
| FileNames.CleanIdempotentWithoutTruncation | src/novel_splitter/utils.py:14-24 | when nothing has to be cut off, cleaning the result again changes nothing |
| FileNames.TruncationCanExposeEdge | src/novel_splitter/utils.py:18-22 | with `max_length` 3, `ab_c` cleans to `ab_` and `ab_` cleans to `ab`, so cleaning is not idempotent once truncation applies |

## Left out

- The language model, its prompt template and `json.loads` (core.py:42-57, 105-113) are foreign calls. They become a per-candidate verdict oracle: failure, truthy field, or falsy/missing field. JSON truthiness of non-boolean values is folded into that oracle.
- The Rich preview table is not modelled, and `input()` becomes an answer input: a typed line, a keyboard interrupt, or end of input.
- File I/O becomes inputs. The source read is a line list, a not-found result, or any other failure. `ensure_dir` success is one flag. Each chapter write and the metadata write has a success oracle. A write that fails part-way through is not modelled.
- The model does not include the metadata's JSON text. The record is kept as a value.
- `os.path.exists`, `uuid.uuid4()`, `datetime.now()` and `os.getcwd()` become fields of the environment.
- `setup_logger`, `tqdm`, `config.py` and `__init__.py` are not part of this model.
- Confirmer.FailureDropsOnlyThatCandidate does not capture Rich markup. The log messages and the preview table put titles and paths into Rich markup unescaped (core.py:64, 88, 121-122, 138-146, 207, 226, 230, 255), and text holding malformed markup, such as a stray `[/b]`, makes Rich raise. The `logger.error` in the confirmation loop's `except` clause can therefore raise for such a title and end the whole run. The model instead always drops just that candidate.
- HumanGate.PromptUser does not capture the preview table raising on such markup. The table is built and printed outside the prompt's `try` (core.py:138-146), so the raise ends the run before any answer is read.
- Workflow.RunNode treats logging and the preview table as having no effect, so it has no raise for markup in a title or path. The same holds for any raise from a log call in detection or the split.
- The LangGraph machinery is replaced by the explicit state machine `Workflow.Drive`. LangGraph's own recursion limit and checkpointing are not modelled.
- Detector.IsDigit: `\d` is taken as ASCII and full-width digits only. Python matches every Unicode decimal digit.
- PyStr.Lower: only A-Z are lowered. Python's `str.lower` is Unicode-aware, so non-ASCII upper-case text that lowers to a keyword is not recognised by the model.
- PyStr.Whitespace is the fixed set of characters that `str.isspace` accepts. The line terminators Python's text mode recognises are not modelled separately. A line is the text `readlines` yields.
- PyStr.PathJoin: only POSIX joining is modelled. Windows separators are not, so `.replace("\\", "/")` is only shown to have no effect for identifiers without a backslash.
- Splitter.RelativePathShape: stated only for a task identifier that is one path component, as a UUID is.
- Workflow.ChapterFilesOpenWithTheirTitles: assumes the split's re-read yields the same lines that detection read. The model does not capture a file that changes between the two reads.
- `clean_filename` is not called from core.py. It is modelled on its own.
- Exceptions the nodes do not catch reach `run`'s `except Exception`. The model shows them as a crashed outcome with the nodes entered so far. Examples are a decoding error in detection and end of input at the prompt.
- A `KeyboardInterrupt` (or another `BaseException`) during detection, the confirmation loop or the split is not modelled. No `except` clause in the code catches it, so it leaves `run` altogether. Only the prompt's interrupt is modelled, because the prompt catches it and answers "no".
