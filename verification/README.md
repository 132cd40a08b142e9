# merge-video: the incremental merge decision, in Dafny

`app.js` merges the videos found under a directory into one artifact,
`merged_video.mp4`. A ledger, `mergedfiles.txt`, records what has been
merged already. One invocation goes through five steps:

1. It keeps the scanned names that the regular expression `/.mp4/` accepts (`filterMp4Files`).
2. It diffs them against the ledger's lines, or writes the ledger on a first run (`checkMergedFiles`).
3. It decides whether to merge (`processFfmpeg`).
4. It queues the engine inputs and merges them into `temp.mp4` (`addVideoes2Proc`).
5. On the engine's `end` event it rewrites the ledger and renames `temp.mp4` over the artifact. On `error` it sends SIGSTOP to the engine.

The project models these steps, the two helpers `isExistOutFile` and
`filterMergedFile`, and the `path.resolve` / `path.join` arithmetic the steps
depend on.

Modules:

- `Wrappers`: `Option`.
- `Seqs`: an order-preserving `Filter` with its subsequence, multiplicity, append and idempotence lemmas.
- `Text`: JavaScript `split` and `join` on one character, and their round trips.
- `Paths`: POSIX `path.resolve` and `path.join` as the normalisation Node performs. It splits on `/`, drops empty and `.` segments, and lets `..` pop a segment (ignored at the root). The working directory is a parameter.
- `Merge`: the pure decision logic of `app.js` as functions and lemmas. It also holds two loop methods, `IsExistOutFile` and `ComputeDelta`, proved against an existential and against `Delta` respectively.
- `Orchestrator`: the class `MergeDir`. It holds what one process changes as it runs:
  - the ledger text;
  - the artifact and `temp.mp4`;
  - the module-level `existsMp4Files`;
  - the inputs queued on the engine command;
  - an ordered log of effects (file writes, the engine run, the rename, the kill).

  Its methods follow the functions of `app.js` one for one.

The model follows `app.js` as written, also where its own header comment
(`app.js:7-12`) or the comment at `app.js:93` suggests otherwise:

- The filter is `/.mp4/`. That is any character other than a line terminator followed by `mp4`, anywhere in the name and case-sensitively. It is not a case-insensitive extension test. So `clip.mp4v.txt` is kept and `X.MP4` is dropped. A merge directory whose path contains `mp4` makes every file under it match, the ledger included. A leftover `temp.mp4` matches too.
- The merge guard at `app.js:94` merges only when exactly one file is pending and it is not the artifact. Two or more new files are never merged. On a first run the ledger is written before the merge decision and lists every scanned mp4. So those files are never offered to the engine by a later run either. Once a merge has published the artifact, every later scan lists it, it is pending because the committed ledger omits it, and so no later run merges anything.
- The first-run ledger is the scanned list as is, the artifact included. After a successful merge, the ledger becomes every scanned mp4 except the artifact. It is not the union of the old ledger and the merged files.
- Neither write is atomic: the ledger is overwritten in place.
- The engine inputs keep the order of the directory listing; nothing sorts them.
- The ledger stores names exactly as the scan produced them, and the diff compares strings exactly. Among the comparisons, only the artifact test goes through `path.resolve`.

## Model

| member | source | states |
|---|---|---|
| Merge.MatchesMp4 | app.js:84 | the test holds iff some position holds a non-line-terminator followed by `mp4` |
| Merge.Mp4PatternAccepts | app.js:84 | `clip.mp4v.txt` and a ledger under a directory named `mp4s` are accepted |
| Merge.Mp4PatternRejects | app.js:84 | `X.MP4`, a bare `mp4` and `mp4` after a line break are rejected |
| Merge.FilterMp4Files | app.js:82-86 | a name is kept iff it was scanned and the pattern matches it |
| Merge.FilterMp4FilesOrder | app.js:82-86 | the kept names are a subsequence of the scan and keep every copy of each accepted name |
| Merge.OutPathResolved | app.js:52-55 | `path.resolve(OutPath)` is `OutPath` itself |
| Merge.ConfigPathsDistinct | app.js:53-55 | the ledger, the artifact and `temp.mp4` are three different paths |
| Merge.ConfigVideosMatch | app.js:54-55 | the artifact and `temp.mp4` are themselves accepted by `/.mp4/` |
| Merge.FilterMergedFile | app.js:123-127 | a name is kept iff it is in the list and does not resolve to the artifact |
| Merge.FilterMergedFileOrder | app.js:123-127 | the result is a subsequence of the list with every non-artifact copy kept and no artifact copy |
| Merge.FilterMergedFileIdempotent | app.js:123-127 | filtering twice equals filtering once |
| Merge.IsExistOutFile | app.js:106-116 | true iff some element, anywhere in the list, resolves to the artifact |
| Merge.ExistOutFileIffFiltered | app.js:106-127 | the artifact is present iff `filterMergedFile` changes the list |
| Merge.Delta | app.js:140-152 | a name is pending iff it was scanned and equals no ledger line |
| Merge.DeltaOrder | app.js:146-152 | the pending names are a subsequence of the scan, keeping all copies of each name the ledger lacks |
| Merge.DeltaSnoc | app.js:146-152 | each scanned name appends itself to the difference or nothing, by ledger membership |
| Merge.ComputeDelta | app.js:140-152 | the two loops (ledger lines into a lookup, then the push of unseen names) compute the difference |
| Merge.MergeDecision | app.js:94-98 | the guard holds iff exactly one file is pending and it does not resolve to the artifact |
| Merge.EngineInputsAreResolvedMp4Files | app.js:171-179 | the engine gets the list's mp4 names, each resolved, in list order |
| Merge.PendingInputsAllQueued | app.js:171-179 | every pending file (drawn from the scan filtered at line 58) was scanned as mp4, so all of them are queued, resolved, in scan order |
| Merge.CommittedLedgerLines | app.js:185 | read back, the rewritten ledger is exactly the list of scanned mp4 files that are not the artifact, in order and with copies, and a single blank line only when that list is empty |
| Merge.FirstRunBaseline | app.js:155-162 | without a ledger the whole list is pending; two or more files are not merged; and no later run offers any of them again |
| Merge.RerunWithoutNewFilesDoesNotMerge | app.js:134-165 | after a successful merge (ledger rewritten at line 185), a scan with nothing new (old files and the artifact only) does not merge |
| Text.Split | app.js:140 | `split` yields at least one piece and no piece contains the separator |
| Text.JoinSplit | app.js:140 | joining the pieces of a text restores the text |
| Text.SplitJoin | app.js:140 | splitting (line 140) a join (lines 156 and 185) of one or more separator-free names returns the names |
| Text.LedgerRoundTrip | app.js:156 | a ledger written by line 156 or 185 reads back as its list, and the empty list reads back as one empty line |
| Paths.Resolve | app.js:52 | `path.resolve` yields an absolute path |
| Paths.ResolveIdempotent | app.js:94 | a resolved path (as compared at lines 94, 109 and 125) is normal, and resolving it again under any working directory returns it unchanged |
| Paths.JoinPathChild | app.js:53-55 | `path.join` of a normal directory and a plain name is the directory, one `/` and the name |
| Paths.NormalizeIdempotent | app.js:52 | normalising twice equals normalising once |
| Merge.LineBreakNameMergedAgain | app.js:140 | a new name holding a line break that is not the artifact is pending on a first run and still pending after the ledger listing it was committed, so it is merged again whenever it is the only pending file |
| Merge.ArtifactBlocksLaterMerges | app.js:94 | after a committed merge (line 185), any scan that lists the artifact has the artifact pending and does not merge, whatever else it holds |
| Orchestrator.ArtifactOnlyReplacedByRename | app.js:182-198 | the engine writes only `temp.mp4`; only the ledger is written; a rename happens iff the merge succeeded, as the last step and after the ledger write |
| Orchestrator.MergeDir.constructor | app.js:36 | a process starts with the directory's persisted state, no scan and no engine inputs |
| Orchestrator.MergeDir.Run | app.js:57-59 | keeps the scanned mp4 files and then behaves as `checkMergedFiles` on them: the decision, inputs, ledger, artifact, temp file and ordered effects |
| Orchestrator.MergeDir.CheckMergedFiles | app.js:134-165 | with a ledger, the pending files are the difference; without one, the ledger is first written as the joined list and everything is pending; the guard then decides |
| Orchestrator.MergeDir.ProcessFfmpeg | app.js:92-99 | no state changes unless the guard holds; when it holds, the outcome is the engine's |
| Orchestrator.MergeDir.AddVideoes2Proc | app.js:171-199 | inputs are appended in order; on success the ledger is committed and `temp.mp4` becomes the artifact; on failure the engine run and the kill are recorded, and the ledger and artifact are unchanged |
| Orchestrator.MergeDir.QueueInputs | app.js:172-179 | the engine inputs grow by the resolved mp4 names of the list, in order |
| Orchestrator.MergeDir.OnEnd | app.js:182-192 | the ledger becomes the scanned mp4 files minus the artifact, written before `temp.mp4` is renamed over the artifact |
| Orchestrator.RerunIsNoOp | app.js:134-192 | after a successful run, a second process whose scan holds no new mp4 (other files such as the ledger may appear) merges nothing and leaves the ledger and artifact as they were |

## Left out

- `travelDir` (`app.js:65-75`) is a recursive directory read. Its result is the `scanned` parameter of `Run`.
- The ffmpeg setup (`app.js:35-41`) and the concatenation itself (`mergeToFile`) are a foreign library and an external process. The engine is a success/failure parameter. A `Video` records only the inputs it was made from.
- `proc.kill('SIGSTOP')` suspends the engine rather than ending it; it is recorded as an effect only.
- Orchestrator.MergeDir.AddVideoes2Proc: a failing engine may leave a partial `temp.mp4` behind. The model leaves `temp` as it was.
- The asynchronous callbacks of `fs.exists`, `readFile`, `writeFile` and `rename` are taken as sequential steps in that order.
- A failing `readFile` or `writeFile` throws inside its callback. This abort is not modelled.
- A failing `rename` is ignored by the source. The model always performs it.
- The `argv` handling (`app.js:48-51`) and all `console.log` output are plumbing.
- The lookup object `temp[val]` is treated as exact string-set membership, without JavaScript's inherited property names.
- Merge.CommittedLedgerLines: holds only for names without a line break. The source accepts such names and its ledger splits them, so such a name stays pending on every later run and is merged again by any run whose scan holds nothing else pending, such as one that lacks the artifact (Merge.LineBreakNameMergedAgain).
- Merge.FirstRunBaseline: holds only for names without a line break. The source accepts such names and its ledger splits them, so such a name stays pending on every later run and is merged again by any run whose scan holds nothing else pending, such as one that lacks the artifact (Merge.LineBreakNameMergedAgain).
- Merge.RerunWithoutNewFilesDoesNotMerge: holds only for names without a line break. The source accepts such names and its ledger splits them, so such a name stays pending on every later run and is merged again by any run whose scan holds nothing else pending, such as one that lacks the artifact (Merge.LineBreakNameMergedAgain).
- Text.LedgerRoundTrip: holds only for names without a line break. The source accepts such names and its ledger splits them, so such a name stays pending on every later run and is merged again by any run whose scan holds nothing else pending, such as one that lacks the artifact (Merge.LineBreakNameMergedAgain).
- Orchestrator.RerunIsNoOp: holds only for names without a line break. The source accepts such names and its ledger splits them, so such a name stays pending on every later run and is merged again by any run whose scan holds nothing else pending, such as one that lacks the artifact (Merge.LineBreakNameMergedAgain).
- Merge.ArtifactBlocksLaterMerges: holds only when the committed names have no line break, for the same reason, and when the scanned artifact name is not empty.
- Paths.Resolve: the working directory is assumed absolute. A trailing `/` that `path.normalize` keeps is not modelled, since `path.resolve` drops it.
