# PR conflict manager: a verified model of its conflict engine

The PR manager reposts a pull request on a new branch `pr<number>_fix`. Before pushing, it
checks out `develop`, creates `temp_branch` from it, merges `develop` into that branch, and
resolves the textual merge conflicts such a merge would leave. This project models the
core of that script, `pr_manager.py`, in Dafny and proves properties of the model:

- **The automatic resolver** (`AutoResolver`, `handle_conflict_file`). It splits a file on the
  start marker `<<<<<<< HEAD` and treats each section holding both `=======` and `>>>>>>>` as a
  conflict hunk. A hunk is replaced by one side when the other side strips to nothing, and by
  both sides, current first, when neither is empty. Every other section is kept verbatim. The
  branch that escalates to the interactive resolver, or raises, cannot be reached; the model
  keeps it as a dead branch and proves it dead.
- **The interactive resolver** (`InteractiveResolver`, `interactive_resolve_conflict`). The
  operator's console is modelled as one sequence of input lines, read in order. Each hunk takes
  one choice line (`1`, `2`, `3`, `4`, or anything else), and a manual edit (`4`) takes lines up
  to the first one that strips to `END`. When the lines run out, the result is `InputExhausted`,
  which models `input()` raising at end of file.
- **The merge orchestrator** (`MergeOrchestrator`, `merge_develop`). The git work tree is a
  `Repository` object whose log records the git commands issued, in order. The files on disk
  are a `FileSystem` object holding a map from path to content. The conflict loop resolves the
  reported unmerged paths one by one under `temp_repo` and stages each one. At the first file
  that cannot be opened, it aborts the merge. When every file is resolved, it commits with the
  fixed message. Files are read as text, so their line ends come back as `\n`. The loop
  method is proved against the recursive specification `ResolveFrom`.
- **Naming helpers** (`PrNaming`):
  - the branch name `pr<number>_fix`;
  - the title `[Repost] <title>`;
  - the `--no-interactive` test on the command line.

`Text` models the Python string operations the resolvers rely on: `str.split` (left to right,
non-overlapping), `in` on strings, and `str.strip` with its set of whitespace characters.
`Wrappers` holds `Option`.

Two behaviours of the code may be unexpected; the model follows the code in both:

- Text after an end marker is dropped. The code keeps only
  `section.split('=======')[1].split('>>>>>>>')[0]`, so whatever follows `>>>>>>>` inside a hunk
  section is lost: the rest of the marker line and every line after it, up to the next start
  marker. One might expect that remainder to be kept as literal text. For example, the file
  `a\n<<<<<<< HEAD\nfoo\n=======\n>>>>>>> branch\nb\n` resolves to `a\nfoo\n`, not to
  `a\nfoo\nb\n` (`ScenarioEmptyIncoming`).
- The automatic resolver also runs its hunk rule on the text before the first start marker, so
  that text is rewritten whenever it contains both `=======` and `>>>>>>>`. In every file, the
  interactive resolver keeps that text verbatim (`FirstSectionKept`; `FirstSectionAsymmetry`
  is the case of a file without a start marker).

## Model

| member | source | states |
|---|---|---|
| Text.Strip | pr_manager.py:100 | the stripped text is never longer than the original |
| Text.StripSpec | pr_manager.py:100 | `strip()` leaves no whitespace at either end, and it returns the empty string exactly when the text is all whitespace |
| Text.StripIsSlice | pr_manager.py:100 | `strip()` returns a contiguous slice of the text, with only whitespace cut from each end |
| Text.SkipSpaceSpec | pr_manager.py:100 | the skipped prefix is all whitespace and stops at the first non-whitespace character |
| Text.SkipSpaceBackSpec | pr_manager.py:100 | the skipped suffix is all whitespace and stops at the last non-whitespace character |
| Text.FindFrom | pr_manager.py:98 | the search from a position returns the first occurrence at or after it, or none when there is none |
| Text.Find | pr_manager.py:98 | a position is found exactly when the text contains the pattern, and it is the first occurrence |
| Text.FindFirst | pr_manager.py:98 | an occurrence with none before it is what `Find` returns |
| Text.SplitOn | pr_manager.py:94 | `split` returns at least one piece; joining the pieces with the separator gives back the text; there are two or more pieces exactly when the separator occurs |
| Text.SplitPiecesLackSep | pr_manager.py:94 | no piece of a split contains the separator |
| Text.SplitHeadBound | pr_manager.py:100 | the first piece of a split is no longer than the text |
| Text.SplitAtFirst | pr_manager.py:94 | splitting `a + sep + b`, where `a` lacks the separator and cannot complete it, gives `[a]` followed by the pieces of `b` |
| Text.LacksFirstChar | pr_manager.py:98 | a text without the first character of a pattern does not contain the pattern |
| Text.Contains | pr_manager.py:98 | Python's `pat in s`: some position holds the pattern; `Find` is its partner |
| Text.Join | pr_manager.py:80 | `sep.join(parts)`; `SplitOn` is proved to be undone by it |
| Text.Newlines | pr_manager.py:90-91 | reading in text mode turns each `\r\n` and lone `\r` into `\n`: the result holds no carriage return and is never longer than the stored text |
| Text.NewlinesKeepsLineFeeds | pr_manager.py:90-91 | text without carriage returns reads back exactly as stored |
| Text.NewlinesIdempotent | pr_manager.py:90-91 | reading back what was read and written gives the same text |
| AutoResolver.CurrentSide | pr_manager.py:100 | the current side is the stripped text before the first `=======`, or the whole stripped section when there is none |
| AutoResolver.IncomingSide | pr_manager.py:101 | the incoming side is the stripped text between the first `=======` and the next `=======` or `>>>>>>>` |
| AutoResolver.IsConflictSection | pr_manager.py:98 | the test `'=======' in section and '>>>>>>>' in section`; `HunkIsConflict` and `HunkRule` use it |
| AutoResolver.HunkText | pr_manager.py:103-110 | the text one hunk becomes always ends with a line break and holds at most both sides and two line breaks; `HunkRule` states which side it keeps |
| AutoResolver.SectionText | pr_manager.py:98-118 | one section's contribution; `HunkRule` and `IdentityOnMarkerFree` state it |
| AutoResolver.ResolvedText | pr_manager.py:97-118 | the loop's output over a list of sections; `ResolvedTextConcat` states how it composes |
| AutoResolver.AutoResolved | pr_manager.py:94-118 | the text written back; `HandleConflictFile` is proved equal to it and `OneHunkFile` and `TwoWordHunks` state its effect on whole files |
| AutoResolver.HandleConflictFile | pr_manager.py:88-122 | the loop writes `AutoResolved(content)` for every input; it never escalates to the interactive resolver and never raises |
| AutoResolver.ConflictSectionShrinks | pr_manager.py:98-110 | a resolved hunk is shorter than its section, since at least the separator is consumed |
| AutoResolver.ResolvedTextStep | pr_manager.py:97-118 | appending one section's text to the text of the earlier sections gives the text of one more section |
| AutoResolver.ResolvedTextSnoc | pr_manager.py:97-118 | the resolved text of sections followed by one more is their text followed by that section's text |
| AutoResolver.ResolvedTextConcat | pr_manager.py:97-118 | sections are resolved independently: the resolved text of concatenated section lists is the concatenation |
| AutoResolver.SingleSection | pr_manager.py:94-118 | a file without a start marker is one section |
| AutoResolver.IdentityOnMarkerFree | pr_manager.py:94-118 | a file without conflict markers is written back unchanged |
| AutoResolver.DelimiterDropped | pr_manager.py:94-118 | the start marker itself never reaches the output: resolving `a + START + b` resolves `a` and then `b` |
| AutoResolver.NoSeparatorUpToEnd | pr_manager.py:101 | no separator starts inside the middle text or the end marker that follows it |
| AutoResolver.PieceKeepsEnd | pr_manager.py:101 | the piece after the separator runs through the end marker |
| AutoResolver.HunkSides | pr_manager.py:100-101 | for a well-formed hunk, the two sides are the stripped texts before `=======` and between `=======` and `>>>>>>>` |
| AutoResolver.HunkIsConflict | pr_manager.py:98 | text holding `=======` and then `>>>>>>>` is a conflict section |
| AutoResolver.HunkRule | pr_manager.py:100-110 | the hunk rule: the incoming side when the current side is empty, the current side when the incoming side is empty, else both, each followed by a line break; the text after the end marker is dropped |
| AutoResolver.OneHunkFile | pr_manager.py:94-118 | a file of ordinary leading text and one hunk, with no further start marker, becomes the leading text followed by the incoming side, the current side, or both, by the hunk rule; the text after the end marker is lost |
| AutoResolver.HunkLacksStart | pr_manager.py:94 | a hunk without `<` characters contains no start marker |
| AutoResolver.TwoSections | pr_manager.py:94 | one start marker splits the file into exactly two sections |
| AutoResolver.StripLineBreaks | pr_manager.py:100-101 | a word between line breaks strips to the word |
| AutoResolver.ScenarioEmptyIncoming | pr_manager.py:94-118 | an empty incoming side keeps the current side, and the rest of the marker line and the lines after it are lost |
| AutoResolver.ScenarioEmptyIncomingFacts | pr_manager.py:94-118 | the inputs of that example meet the conditions of the one-hunk rule |
| AutoResolver.TwoSectionFile | pr_manager.py:94-118 | a file with two hunk sections resolves each in order after the leading text |
| AutoResolver.WordsHunk | pr_manager.py:100-110 | a hunk with one word on each side resolves to both words, current first, each on its own line |
| AutoResolver.TwoWordHunks | pr_manager.py:94-118 | two consecutive two-sided hunks produce both unions in order; the text after each end marker is lost |
| AutoResolver.ScenarioTwoUnions | pr_manager.py:94-118 | a concrete two-hunk file resolves to the two unions in order |
| AutoResolver.ScenarioTwoUnionsFacts | pr_manager.py:94-118 | the inputs of that example meet the conditions of the two-hunk rule |
| InteractiveResolver.FirstTerminator | pr_manager.py:75-78 | the index of the terminator line lies between the first line read and the end of the input |
| InteractiveResolver.IsTerminator | pr_manager.py:77 | the test `line.strip() == 'END'`; `FirstTerminatorIsFirst` uses it |
| InteractiveResolver.ChoiceText | pr_manager.py:66-71 | what choices `1`, `2` and `3` append, and nothing for any other line; `AutoChoice` relates it to the automatic rule |
| InteractiveResolver.ManualText | pr_manager.py:80 | a manual edit always ends with a line break |
| InteractiveResolver.InteractiveResolve | pr_manager.py:50-82 | the session for a file and an input stream; `InteractiveResolveConflict` is proved equal to it and `AutoIsInteractive` relates it to `AutoResolved` |
| InteractiveResolver.FirstTerminatorIsFirst | pr_manager.py:75-78 | no line before that index strips to `END`, and the line at it does (or the input has ended) |
| InteractiveResolver.ReadManual | pr_manager.py:74-80 | a completed manual edit consumes at least the terminator line and no more than the input |
| InteractiveResolver.ReadManualSpec | pr_manager.py:74-80 | a manual edit fails exactly when no remaining line strips to `END`; otherwise it collects the lines before the first such line and resumes after it |
| InteractiveResolver.ReadManualLines | pr_manager.py:74-79 | the read loop yields exactly the lines before the first terminator and the position after it, or `InputExhausted` when no terminator comes |
| InteractiveResolver.Run | pr_manager.py:53-82 | a finished session has consumed at least one input line per conflict hunk, and no more lines than exist |
| InteractiveResolver.InteractiveResolveConflict | pr_manager.py:45-86 | the method's loop produces exactly the session that the recursive specification `InteractiveResolve` defines |
| InteractiveResolver.NoMarkerUnchanged | pr_manager.py:50-53 | a file without a start marker is written back unchanged and reads no input |
| InteractiveResolver.FirstSectionKept | pr_manager.py:51 | in every file, a finished interactive session begins with the text before the first start marker, verbatim, while the automatic resolver puts that text through the hunk rule, which shortens it when it is a conflict (pr_manager.py:97-98) |
| InteractiveResolver.FirstSectionAsymmetry | pr_manager.py:51 | a file without a start marker that is itself a conflict is written back unchanged interactively, reading no input, and comes out shorter automatically |
| InteractiveResolver.OneHunkRun | pr_manager.py:50-56 | a file of leading text and one hunk, with no further start marker, is read as exactly those two sections, and the sides shown to the operator are the hunk's stripped sides |
| InteractiveResolver.OneHunkChoice | pr_manager.py:64-71 | for a file of leading text and one hunk, a first line other than `4` gives the leading text and the side(s) that line selects, and exactly one line is read |
| InteractiveResolver.HunkChoice | pr_manager.py:64-71 | for any file of leading text and one hunk, a non-manual choice gives the leading text and the chosen side(s) |
| InteractiveResolver.HunkManual | pr_manager.py:72-80 | for any file of leading text and one hunk, a manual edit gives the leading text and the typed lines, or exhausts the input |
| InteractiveResolver.OneHunkManual | pr_manager.py:72-80 | for a file of leading text and one hunk, a first line `4` gives the leading text and the typed lines, resuming after the terminator, or exhausts the input when no terminator comes |
| InteractiveResolver.OneHunkNoInput | pr_manager.py:64 | with no input at all, a file of leading text and one hunk cannot be resolved interactively |
| InteractiveResolver.AutoChoice | pr_manager.py:64-71 | for every pair of sides, some non-manual choice gives the text the automatic rule would give |
| InteractiveResolver.AutoAnswers | pr_manager.py:64 | the automatic choices number one per conflict hunk |
| InteractiveResolver.RunFollowsAuto | pr_manager.py:53-82 | an operator who answers every hunk as the automatic rule would reproduces the automatic resolution of those sections |
| InteractiveResolver.AutoIsInteractive | pr_manager.py:45-86 | on files whose leading text is not a hunk, the automatic resolver's output is reachable interactively, one choice per hunk |
| MergeOrchestrator.JoinPathShape | pr_manager.py:144 | `os.path.join` returns an absolute path unchanged; it joins a relative path under the directory with one `/` |
| MergeOrchestrator.JoinPath | pr_manager.py:144 | `os.path.join` on POSIX; `JoinPathShape` states its cases |
| MergeOrchestrator.JoinPathInjective | pr_manager.py:144 | distinct paths under the clone directory are distinct files |
| MergeOrchestrator.Repository.constructor | pr_manager.py:131-138 | a fresh work tree has an empty log and the given merge outcome and unmerged paths |
| MergeOrchestrator.Repository.Issue | pr_manager.py:127-129 | issuing a git command appends it to the log and changes nothing else |
| MergeOrchestrator.Repository.MergeBranch | pr_manager.py:131-133 | `git merge` is logged and succeeds exactly when the merge is clean |
| MergeOrchestrator.Repository.UnmergedPaths | pr_manager.py:137-139 | the conflict list is the work tree's unmerged paths |
| MergeOrchestrator.FileSystem.constructor | pr_manager.py:90-91 | the disk starts with the given files |
| MergeOrchestrator.FileSystem.Read | pr_manager.py:90-91 | reading yields the text of an existing file with universal newlines, and nothing for a missing one |
| MergeOrchestrator.FileSystem.Write | pr_manager.py:121-122 | writing replaces that one file and leaves every other file as it was |
| MergeOrchestrator.ResolvedFile | pr_manager.py:90-122 | what a conflicted file is left holding: the automatic resolution of its text as read |
| MergeOrchestrator.ResolvedFileKeepsPlain | pr_manager.py:90-122 | a file without carriage returns and conflicts is left exactly as stored |
| MergeOrchestrator.ResolvedFileNormalises | pr_manager.py:90-122 | a file with carriage returns but no conflicts is still rewritten, with `\n` line ends, so it differs from what was stored |
| MergeOrchestrator.HandleConflictPath | pr_manager.py:88-122 | a missing file raises and leaves the disk unchanged; an existing file is overwritten with the automatic resolution of its text as read, and no other file changes |
| MergeOrchestrator.Locations | pr_manager.py:144 | each conflict path has one location |
| MergeOrchestrator.ResolveFrom | pr_manager.py:142-151 | the conflict loop from one path on; `ResolveCommands`, `ResolveStopsAtFirst` and `ResolvedContents` state what it does |
| MergeOrchestrator.ConflictLoop | pr_manager.py:142-151 | the loop over the reported paths inside the clone; `ResolveConflicts` is proved equal to it |
| MergeOrchestrator.ResolveCommands | pr_manager.py:142-151 | the loop issues `git add` for each path in order, and after a failure issues one `merge --abort` and stops |
| MergeOrchestrator.StagingStep | pr_manager.py:142-146 | staging one more path before the rest extends the staged prefix by one |
| MergeOrchestrator.FirstMissing | pr_manager.py:142-147 | the first missing location lies in the part still to be resolved |
| MergeOrchestrator.FirstMissingIsFirst | pr_manager.py:142-147 | every location before it exists, and the one at it does not (or the list has ended) |
| MergeOrchestrator.ResolveStopsAtFirst | pr_manager.py:142-151 | the loop stages exactly the paths before the first missing file, and succeeds exactly when no file is missing |
| MergeOrchestrator.ResolveSucceedsIff | pr_manager.py:142-155 | the conflict set resolves exactly when every remaining location exists |
| MergeOrchestrator.StagesEnd | pr_manager.py:142-151 | the loop never commits, and it aborts exactly when it fails |
| MergeOrchestrator.LocationsDistinct | pr_manager.py:144 | distinct conflict paths have distinct locations |
| MergeOrchestrator.ResolvedContents | pr_manager.py:142-151 | the files staged before the first failure hold their resolutions, and every other file, the failed one included, is untouched |
| MergeOrchestrator.ResolvedContentsStep | pr_manager.py:142-146 | resolving one more location before the rest resolves one more staged file |
| MergeOrchestrator.DistinctSlice | pr_manager.py:142 | the head of a list of distinct paths does not recur in its tail |
| MergeOrchestrator.ResolvedOnStep | pr_manager.py:142-146 | a file resolved first keeps its resolution through the later steps |
| MergeOrchestrator.MergeLogEnds | pr_manager.py:124-155 | the attempt commits exactly when the merge conflicted and every file resolved, and aborts exactly when it conflicted and some file failed |
| MergeOrchestrator.MergeLog | pr_manager.py:124-155 | the commands of a whole attempt; `MergeDevelop` is proved to issue them and `MergeLogShape` states their order |
| MergeOrchestrator.Stagings | pr_manager.py:146 | one `git add` per staged path |
| MergeOrchestrator.StagesAsList | pr_manager.py:142-151 | the loop's commands are one `git add` per path before the failure, then `merge --abort` on failure |
| MergeOrchestrator.MergeLogShape | pr_manager.py:124-155 | a conflicted attempt logs checkout, pull, new branch and merge, one `git add` per path before the first missing file, then either the commit or one `merge --abort` |
| MergeOrchestrator.MergeSucceedsIff | pr_manager.py:124-155 | `merge_develop` returns true exactly when the merge was clean or every reported path exists under `temp_repo` |
| MergeOrchestrator.MergeFiles | pr_manager.py:142-155 | with distinct paths, each file resolved before a failure, and every file on success, holds `ResolvedFile` of its old content; no other file changes |
| MergeOrchestrator.ResolveConflicts | pr_manager.py:142-155 | the loop method's result, the commands it issues and the files it leaves are those of the specification `ConflictLoop` |
| MergeOrchestrator.MergeDevelop | pr_manager.py:124-155 | the whole attempt returns the merge outcome, appends the `MergeLog` sequence to the log, and changes files only when the merge conflicted |
| MergeOrchestrator.MergedAsWritten | pr_manager.py:137-161 | the outcome as written: a conflicted merge that reports any path fails at `item.a_path` |
| MergeOrchestrator.MergeLogAsWritten | pr_manager.py:137-161 | the commands as written: after a conflicted merge that reports a path, at most a `merge --abort` |
| MergeOrchestrator.AsWrittenLosesResolvableMerge | pr_manager.py:137-161 | a conflicted merge whose files all exist is committed by the intended loop, but as written it reports failure and never commits |
| MergeOrchestrator.AsWrittenExample | pr_manager.py:137-161 | one conflicted file `a.txt` present in the clone shows the difference |
| MergeOrchestrator.AsWrittenSuccessAgrees | pr_manager.py:137-161 | wherever the written code succeeds, the intended loop succeeds too and issues the same commands |
| PrNaming.DigitValue | pr_manager.py:198 | a digit's value is below ten |
| PrNaming.NatToString | pr_manager.py:198 | `str(n)` for `n >= 0`; `NatToStringRoundTrip` states it |
| PrNaming.IntToString | pr_manager.py:198 | `str(n)` for any integer; `IntToStringRoundTrip` states it |
| PrNaming.NewBranchName | pr_manager.py:198 | `f"pr{pr_number}_fix"`; `BranchNameRoundTrip` and `BranchNameInjective` state it |
| PrNaming.DigitRoundTrip | pr_manager.py:198 | a digit's character reads back as the digit |
| PrNaming.NatToStringRoundTrip | pr_manager.py:198 | the decimal form of a natural number is a numeral with no leading zero that reads back as the number |
| PrNaming.IntToStringRoundTrip | pr_manager.py:198 | the decimal form of every integer, negative ones included, reads back as the integer |
| PrNaming.NegativeRoundTrip | pr_manager.py:198 | a negative integer's minus sign and digits read back as the integer |
| PrNaming.BranchNameRoundTrip | pr_manager.py:198 | the pull request number can be read back from its `pr<number>_fix` branch name |
| PrNaming.BranchNameInjective | pr_manager.py:198 | distinct pull requests are pushed to distinct branches |
| PrNaming.RepostTitle | pr_manager.py:177 | `f"[Repost] {original_pr.title}"`; `RepostTitleRoundTrip` states it |
| PrNaming.RepostTitleRoundTrip | pr_manager.py:177 | the original title can be read back from the repost title, and a title is a repost title of exactly the original it yields |
| PrNaming.Interactive | pr_manager.py:237 | the flag test of `main`; `InteractiveIff` states it |
| PrNaming.InteractiveIff | pr_manager.py:237 | the run is interactive exactly when no argument after the pull request number is `--no-interactive` |

## Left out

- The parts of the script other than the conflict engine are not part of this model:
  - `setup_git_config` (pr_manager.py:16-20), which sets git's credential helper and writes the
    access token to `~/.git-credentials`;
  - `clone_and_setup_repo` (22-43), which talks to GitHub and to the network;
  - the body, labels and API call of `create_new_pr` (163-188); only the title is modelled;
  - `process_pr` (190-220), apart from the branch name;
  - the environment checks and exit codes of `main` (222-241), apart from the flag test.
- The merge outcome `conflicting` is a free input of `Repository`. As written, `merge_develop`
  creates `temp_branch` from `develop` (pr_manager.py:127-129) and then merges `develop` into
  it (131), so the merge is always already up to date. The pull request's branch, checked out
  at line 201, is left behind. The conflict path (133-155) therefore cannot be reached from
  `process_pr`. The model covers that path as if the merge could conflict. Modelling git
  branches and histories is out of scope.
- The `interactive` flag computed by `main` is passed to `process_pr`, but `process_pr` never
  passes it on: `merge_develop` always calls `handle_conflict_file` with its default `True`. This
  makes no difference to the model, because the branch that reads the flag cannot be reached.
- The console messages (`print`) and the text of the `input` prompts are output only and are
  not modelled. The operator's answers are a parameter: a sequence of lines.
- Reading and writing files are modelled as operations on a map from path to content:
  - reading applies universal newlines (`Text.Newlines`);
  - writing stores the text unchanged, which is what text mode does on POSIX, where the line
    separator is `\n`; other platforms are not modelled;
  - the only I/O error modelled is opening a file that does not exist. Other I/O errors are
    not modelled: permissions, decoding and partial writes.
- Git is modelled as a log of the commands issued. The model does not simulate git itself:
  - the merge outcome and the unmerged paths are inputs;
  - `git checkout`, `git pull`, `git add`, `git commit` and `git merge --abort` always succeed;
  - `merge --abort` restores no files: the model leaves the resolved files on disk, and how git
    resets the work tree is not modelled.
- MergeOrchestrator.Repository.UnmergedPaths models the intended conflict list: the paths that
  `unmerged_blobs()` reports, each once, because they are the keys of a dictionary. As written,
  `item.a_path` on each key raises `AttributeError` (pr_manager.py:137-139), and the outer
  handler (157-161) catches it. That behaviour is modelled separately, by `MergedAsWritten` and
  `MergeLogAsWritten` (see Findings). `MergeDevelop` and the lemmas about it use the intended
  list. Because the keys are unique, `MergeFiles` can require `Distinct`.
- Since the model lets every git command succeed, the outer handler (pr_manager.py:157-161) is
  reached only through the `AttributeError` above. In the script it is also reached when
  `git checkout`, `git pull` or `git checkout -b` fail (127-129), for example without a
  `develop` branch, and when `merge --abort` (150) or the commit (154) fail.
  Whether it issues `merge --abort`, which depends on `'merge' in dir(local_repo.git)`, is a
  parameter of `MergeLogAsWritten`.
- Removing the clone directory (pr_manager.py:217-220) is not modelled.
- `InteractiveResolver.InteractiveResolveConflict`: the method takes the text as read and
  returns the resulting text instead of writing it to the file, because the escalation path
  that calls it cannot be reached from any other member of the model.

## Findings

| source | as written | input that shows it | evidently intended | confidence | as-written member | corrected member |
|---|---|---|---|---|---|---|
| pr_manager.py:137-139 | `[item.a_path for item in local_repo.index.unmerged_blobs()]` iterates over the keys of a dictionary from path to blobs, and `.a_path` on a path string raises `AttributeError`; the outer handler returns `False` | a conflicted merge that reports `a.txt`, with `temp_repo/a.txt` present | the loop runs over the reported paths themselves, resolves and stages each, and commits | not executed; depends on GitPython returning a dictionary from `unmerged_blobs()` | MergeOrchestrator.AsWrittenLosesResolvableMerge | MergeOrchestrator.MergeDevelop |
