# StubGraph: verified model of the hard core

StubGraph indexes the files of a project into a graph, serves neighbourhoods and listings of it, and
keeps it up to date while files change. This project models the parts of its backend that carry the
hardest logic, and proves what they promise. Each module stands for one part:

- `RoutePatterns`: whether two route patterns with `{}` (one segment) and `{*}` (any number of
  segments) share a concrete path. The memoised recursion is proved equal to non-emptiness of the
  intersection of the two word languages, with a witness built from one side and an induction from the
  other, and carried on to concrete URLs.
- `GoBuild`: the `//go:build` evaluator. Python's `and` and `or` skip the *parse* of the right operand,
  so some well-formed expressions raise and some malformed ones return. The exact set of accepted token
  lists, and the value returned, are proved for all token lists.
- `Patches`: applying the hunks of a unified diff. For arbitrary hunks, success is characterised by the
  edits of the original it stands for. For diffs printed from an edit script, the exact condition under
  which the result is the target is proved: hunks that only insert are placed one line early.
- `GraphMetrics`: fan-in, fan-out and SCC ids after file mutations. Every mutation is a scan that
  rewrites edges, then an update that patches some rows or falls back to the full recompute.
- `NeighborWalk`: the recursive query that walks simple paths and ranks them, against directed balls.
- `LocalGraph`: the capped breadth-first search, against undirected balls.
- `BatchPipeline`: the producer, bounded queue and sentinel-stopped workers, as a step system.
- `SnapshotVerify`: the staged concurrent snapshot check against the sequential one, on top of
  `BatchPipeline`.
- `ArchiveParts` and `ArchiveUpload`: reading an archive in chunks and checking the parts uploaded, and
  the multipart upload with its producer, queue, workers, shutdown and abort, as a step system in which
  every await on the store or on the file may fail.
- `RuntimeLane`: the counters around the semaphore of the file-system and CPU runtimes.
- `TaskQueue`: submitters and workers around the in-flight set and the partial unique index on active
  jobs, as a step system.
- `TsSplit`: the two scanners that split at top-level commas.
- `BraceBlock`: the brace matcher, and inserting text before the closing brace as the editors do.
- `TreeListing` and `TreePaging`: the immediate children of a directory, and paging through them with
  cursors, against one unpaged listing.
- `PyText` and `TextOrder` hold Python's `strip` and the order of strings by code points, `FileGraph`
  the edge rows of the file graph, and `Basics` what several modules share.

## How the source is modelled

Loops of the source are methods with loops, proved against functions or direct statements. State that
it updates in place is a class with that state: the memo table (`Matcher`), the position in the tokens
(`Parser`), the rows of the database (`Store`), the counters of a lane (`Lane`). In the concurrent modules a step is the code between two awaits: `Enabled` says when it may run,
`Apply` what it does, `IsRun` is any interleaving from the initial state, and the results are about
every state of every run. Failures that the source lets happen are steps of their own.

What the source cannot decide by itself is a parameter, with these readings:

- networkx's strongly connected components are a function that numbers the classes of mutual
  reachability (`GraphMetrics.Numbers`); such a numbering is proved to exist.
- The database compares text by code points, as under the C collation.
- A file system does not change while a snapshot is checked, and hashing is an arbitrary function.
- In `GraphMetrics` the prepare and write stages of one scan are one step, and the files a scan finds
  or misses are among the changed paths that the update is given. Stored paths are not empty.
- Redis and Postgres operations are atomic and succeed or fail as the steps say; an enqueue that is
  reported as failed is not delivered.

Where the documentation and the code of StubGraph differ, the model follows the code. These are places
where the code does something other than one would expect, and each is stated with its exact condition
or a concrete input:

- `GoBuild.EvaluatesIffReadable`, `GoBuild.ShortCircuitSkipsParse`, `GoBuild.DanglingOperatorReturns`:
  `a && b` raises when `a` is false, and `a &&` returns false in that case.
- `Patches.DiffAppliesIffHarmless`, `Patches.ZeroContextInsertionMisplaced`: insertions without context
  go before the line they should follow.
- `GraphMetrics.RecomputedSccSoundIff`, `GraphMetrics.CycleSplitByEdgeCap`: with only the edge cap
  exceeded, the files of a cycle get different SCC ids.
- `LocalGraph.LoadLocalGraph`, `LocalGraph.EdgeWithoutNode`: an edge to a path that has no FileNode row
  is returned though the path is not.
- `ArchiveUpload.RunsEndRight`, `ArchiveUpload.FailedCloseLeavesWorker`: when closing the archive raises,
  the upload workers are left waiting.
- `TaskQueue.InflightIsBounded`, `TaskQueue.PendingJobLeftOut`: a heavy job whose enqueue fails, and whose
  marking as failed fails too, stays pending outside the in-flight set, where no step of a submit or of a
  worker puts it back.
- `TreePaging.PagingListsAllIff`, `TreePaging.LeadingSpaceLosesFile`: a cursor is stripped before it is
  compared, so that following the cursors can pass over files once a path begins with a space.

## Model

| member | source | states |
|---|---|---|
| RoutePatterns.CompatibleIffMeet | backend/app/api_map.py:164-222 | The recursion answers true exactly when some concrete segment list is matched by both patterns |
| RoutePatterns.Witness | backend/app/api_map.py:164-222 | When the answer is true, a segment list that both patterns match, made of concrete segments |
| RoutePatterns.SharedWordImpliesCompatible | backend/app/api_map.py:164-222 | A segment list that both patterns match makes the answer true, also with `{*}` on both sides |
| RoutePatterns.CompatibleIsSymmetric | backend/app/api_map.py:164-222 | The answer does not depend on the order of the two patterns |
| RoutePatterns.Matcher.Rec | backend/app/api_map.py:169-220 | Every memo entry, old or new, is the answer for the two suffixes of its key; the recursion terminates |
| RoutePatterns.PatternsCompatible | backend/app/api_map.py:164-222 | The memoised call is true if and only if the two languages meet |
| RoutePatterns.AcceptsConcat | backend/app/api_map.py:164-222 | The words of a pattern in two parts are those that split into a word of each part |
| RoutePatterns.AcceptsOne | backend/app/api_map.py:8-9 | `{}` stands for any one segment, `{*}` for any number, and another token for itself |
| RoutePatterns.SplitWithoutSlash | backend/app/api_map.py:148 | A text without a slash is its own single segment, and the empty text has none |
| RoutePatterns.SplitAtSlash | backend/app/api_map.py:148 | Splitting two texts with a slash between them gives the segments of the one, then those of the other |
| RoutePatterns.SplitOfUrl | backend/app/api_map.py:142-148 | Any segments joined by single slashes, with or without a slash before and after, split back into themselves; read as a skeleton they do so exactly when the text has no whitespace at its ends |
| RoutePatterns.SkeletonsShareUrl | backend/app/api_map.py:142-148 | Two skeletons are compatible exactly when one URL without wildcards has segments that both match; unless a segment of theirs ends in whitespace, the URL ends in no slash or is `/` |
| GoBuild.Parser.ParsePrimary | backend/app/indexers/go_indexer.py:125-139 | From any position: raises or moves to the position and value of the primary that stands there |
| GoBuild.Parser.ParseUnary | backend/app/indexers/go_indexer.py:141-146 | The same for operands with any number of `!` |
| GoBuild.Parser.ParseAnd | backend/app/indexers/go_indexer.py:148-153 | The same for the `&&` loop, in which a false value skips the operand's parse |
| GoBuild.Parser.ParseOr | backend/app/indexers/go_indexer.py:155-160 | The same for the loop over disjunctions, in which a true value skips it |
| GoBuild.EvalGoBuild | backend/app/indexers/go_indexer.py:101-165 | The whole evaluation raises or returns as the position functions say, trailing tokens included; a single tag token returns whether the tag is set, a leading `!` negates it, the constants are constant and an empty token is false |
| GoBuild.SingleToken | backend/app/indexers/go_indexer.py:69-80 | One token: a tag by its name, `true` and `false` whatever the tags, a `!` in the token negates the rest, and an empty token is false |
| GoBuild.TwoTags | backend/app/indexers/go_indexer.py:125-160 | One or two tags with an operator or parentheses, for any names and tags: what is returned, and when the call raises |
| GoBuild.OnlyNamesMatter | backend/app/indexers/go_indexer.py:69-165 | For every token list the outcome depends only on which of the names in the tokens are among the tags |
| GoBuild.PrintedExprEvaluates | backend/app/indexers/go_indexer.py:69-165 | On the tokens of a build expression: returns its truth value when no `&&` is reached with a false left value and no `or` operator with a true one, and raises otherwise |
| GoBuild.EvaluatesIffReadable | backend/app/indexers/go_indexer.py:101-165 | For every token list: a value is returned exactly when the tokens print a readable expression of that value, where an operator may lack an operand it would not read |
| GoBuild.ShortCircuitSkipsParse | backend/app/indexers/go_indexer.py:148-160 | A well-formed conjunction with a false left operand raises |
| GoBuild.DanglingOperatorReturns | backend/app/indexers/go_indexer.py:148-160 | Malformed token lists that end in an operator return a value |
| Patches.CopyGap | backend/app/patches.py:115-119 | Lines up to the hunk's start, or to the end of the file, are copied in order |
| Patches.RunHunk | backend/app/patches.py:121-135 | A hunk consumes and emits what the line rules give, or fails at the first mismatch |
| Patches.ApplyFilePatch | backend/app/patches.py:112-136 | The loops over hunks and lines compute the patch of the whole file |
| Patches.AppliesIffEdit | backend/app/patches.py:112-136 | For arbitrary hunks: application succeeds with a text exactly when an edit of the whole original, with all lines outside hunks kept in order, turns it into that text |
| Patches.DiffAppliesIffHarmless | backend/app/patches.py:112-136 | A diff printed from an edit script applies, and gives the target exactly when every hunk without source lines is harmless |
| Patches.DiffRoundTrip | backend/app/patches.py:112-136 | With a context line in every hunk, the diff turns source into target and the inverted diff turns target into source |
| Patches.ZeroContextInsertionMisplaced | backend/app/patches.py:115-119 | A hunk that only inserts after line k puts its lines before line k |
| GraphMetrics.CountsKept | backend/app/scan.py:1693-1711 | A file that no deleted and no added edge touches keeps its edge counts |
| GraphMetrics.UpdateKeepsFans | backend/app/graph.py:240-402 | A scan and the update after it keep every fan count equal to its edge-row count, on every branch |
| GraphMetrics.UpdateKeepsScc | backend/app/graph.py:404-437 | A scan and the update after it keep mutually reachable files on one SCC id, within the caps |
| GraphMetrics.PatchKeepsScc | backend/app/graph.py:404-437 | The incremental branch keeps it though it renumbers only the component, from 0 |
| GraphMetrics.PatchedSccExact | backend/app/graph.py:294-315 | Inside the component of the update a shared SCC id is mutual reachability, in both directions |
| GraphMetrics.RecomputedSccSoundIff | backend/app/graph.py:125-177 | A recompute keeps cycles together unless the edge cap alone is exceeded and there is a cycle |
| GraphMetrics.CycleSplitByEdgeCap | backend/app/graph.py:125-177 | Two files that import each other get different ids under a cap of one edge |
| GraphMetrics.OutsideIsOld | backend/app/scan.py:1883-1922 | What reaches what outside the component did so before the scan |
| GraphMetrics.NothingScanned | backend/app/scan.py:1733-1924 | A scan that found and missed nothing leaves the rows as they were |
| GraphMetrics.MutationWrites | backend/app/scan.py:1883-1922 | A mutation leaves the rows that were there and not removed, and those written, the new ones blank when the update gets them; an edge is there when it was written, or was there with a source neither found nor removed and a target not removed |
| GraphMetrics.RunKeepsRows | backend/app/scan.py:1891-1906 | Over every sequence of file mutations a file has a row exactly when it was last written, or was there at the start, and not removed since |
| GraphMetrics.RunKeepsEdges | backend/app/scan.py:1883-1922 | Over every sequence of file mutations an edge is there exactly when it was last written, or was there at the start, and neither its source scanned nor an end removed since |
| GraphMetrics.UpdateBranches | backend/app/graph.py:240-437 | An update that gives the incremental branch up makes the SCC ids of all files exact, within the caps; one that does not leaves the rows of files neither connected nor neighbouring alone |
| GraphMetrics.FallsBackIff | backend/app/graph.py:260-376 | After exact counts the incremental branch is given up exactly for too many files, too large a component, or a changed file without a row or with fewer edges in or out than before the scan |
| GraphMetrics.RunKeepsFans | backend/app/services/file_mutation_service.py:78-111 | Over every sequence of file mutations the fan counts stay exact |
| GraphMetrics.RunKeepsScc | backend/app/services/file_mutation_service.py:78-111 | Over every sequence of file mutations within the caps, mutually reachable files share an SCC id |
| GraphMetrics.NumberingExists | backend/app/graph.py:404-417 | The numbering of components that the model takes from networkx exists for every graph |
| GraphMetrics.Store.ScanFiles | backend/app/scan.py:1693-1924 | The neighbours read before the write stage, and after it exactly which files have a row, which rows are blank and which are as before, and which edges are there |
| GraphMetrics.Store.Absorb | backend/app/graph.py:300-310 | One batch of rows grows the component by both ends of its edges and makes the new ones the frontier |
| GraphMetrics.Store.GrowComponent | backend/app/graph.py:294-315 | The frontier loop ends with the least set closed under both edge directions, and gives up exactly when that set or its edges exceed the limits |
| GraphMetrics.Store.Recompute | backend/app/graph.py:209-237 | The full recompute writes every row's counts and SCC id |
| GraphMetrics.Store.MaybeRecompute | backend/app/graph.py:48-60 | The recompute, or its deferral exactly when it would run in the background and both thresholds are set and one is reached |
| GraphMetrics.Store.UpdateIncremental | backend/app/graph.py:240-437 | Which branch is taken and what the rows are after it |
| GraphMetrics.Store.RunMutation | backend/app/services/file_mutation_service.py:78-111 | A mutation scans and updates: which files have a row and which edges are there afterwards, with fan counts and cycles kept right; an aborted scan changes nothing |
| NeighborWalk.RowsAreSimpleWalks | backend/app/graph_traversal.py:43-53 | The recursive query's rows are exactly the simple walks from the start of bounded length |
| NeighborWalk.CutLoops | backend/app/graph_traversal.py:43-53 | Whatever a walk reaches, a simple walk no longer than it reaches |
| NeighborWalk.FirstRankIsDistance | backend/app/graph_traversal.py:54-66 | The row ranked first for a node has the node's shortest distance as its depth |
| NeighborWalk.SelectedListsBall | backend/app/graph_traversal.py:41-71 | The selection lists each node other than the start exactly once if and only if its distance is between 1 and the depth, in order of distance |
| NeighborWalk.NeighborsListBall | backend/app/graph_traversal.py:7-86 | With depth and limit clamped as the code does, the answer is a prefix of that list of the length the limit allows, and nothing when the depth or limit asked for is not positive |
| NeighborWalk.TiesByPath | backend/app/graph_traversal.py:54-71 | Of two nodes at one distance the one listed first has the shortest path whose text comes first |
| NeighborWalk.StepsFollowEdges | backend/app/graph_traversal.py:33-34 | Going out, a step leads from the source of an edge to its target; going in, from the target to the source |
| NeighborWalk.DirectNeighbors | backend/app/graph_traversal.py:7-86 | At depth one the answer is exactly the other ends of the edges out of, or into, the file |
| NeighborWalk.ClampsAreBounds | backend/app/graph_traversal.py:18-32 | The depth and limit in use are those asked for or the greatest allowed, and within both bounds |
| LocalGraph.BallIsWithin | backend/app/services/project_service.py:1626-1653 | Balls grown round by round are the files within that many undirected steps |
| LocalGraph.RingExpands | backend/app/services/project_service.py:1631-1653 | Querying the edges of the newest ring finds all edges of the ball and the next ring |
| LocalGraph.EmptyRingEnds | backend/app/services/project_service.py:1631-1632 | Once a ring is empty the ball no longer grows |
| LocalGraph.VisitNode | backend/app/services/project_service.py:1649-1652 | A neighbour is added once, and not past the node cap |
| LocalGraph.VisitRow | backend/app/services/project_service.py:1643-1652 | One edge row is kept under the edge cap and its ends visited |
| LocalGraph.VisitRows | backend/app/services/project_service.py:1643-1652 | A chunk of rows visits all their ends unless a cap is met |
| LocalGraph.VisitFrontier | backend/app/services/project_service.py:1634-1653 | A round visits all edges at the frontier, in chunks, unless a cap is met |
| LocalGraph.SearchRound | backend/app/services/project_service.py:1631-1653 | A round without a cap met extends the node set to the next ball |
| LocalGraph.LoadLocalGraph | backend/app/services/project_service.py:1607-1682 | Truncated exactly when the ball of the effective radius or the edges touching the ball one hop smaller reach a cap. Not truncated: the paths reached are that ball, the nodes are those of them with a FileNode row, and the edges are all of those edges. Always: both caps hold and every edge has both ends among the paths reached, and among the nodes exactly when all its ends have a row |
| LocalGraph.EdgeWithoutNode | backend/app/services/project_service.py:1655-1682 | With one edge to a path that has no row, the reply holds the edge and not the path |
| LocalGraph.SearchEnds | backend/app/services/project_service.py:1655-1682 | The search that met no cap returns whole balls, also when it stopped early |
| BatchPipeline.StepKeepsInv | backend/app/scan.py:414-470 | Every step keeps: the queue is a stretch of what the producer puts, each batch taken is with one worker or in its place in the results, each worker's sentinel came after all batches |
| BatchPipeline.NoDeadlock | backend/app/scan.py:427-445 | Until the call ends, its producer, a worker or its caller can go on |
| BatchPipeline.StepMakesProgress | backend/app/scan.py:427-445 | Every step makes what is left to do smaller |
| BatchPipeline.RunKeepsInv | backend/app/scan.py:414-470 | The invariant and the countdown hold in every state of every interleaving |
| BatchPipeline.RunsEndRight | backend/app/scan.py:414-470 | Every run is bounded and can go on to its end; it returns the results in input order with each batch begun once and each worker stopped by one sentinel, or raises the error of a batch that failed |
| BatchPipeline.SomeRunEnds | backend/app/scan.py:447-470 | Some schedule ends |
| BatchPipeline.EndIsRight | backend/app/scan.py:447-470 | A call returns exactly when no batch fails |
| BatchPipeline.RunnerJob | backend/app/scan.py:422-423 | The pool and the queue are never of size zero, whatever limit is given |
| BatchPipeline.RunnerIsSequential | backend/app/scan.py:414-470 | The runner gives the sequential map of the batches, for every limit and schedule |
| SnapshotVerify.VerifyScanSnapshot | backend/app/scan.py:847-877 | The sequential check succeeds exactly when everything is as the snapshot has it, and otherwise names the first fault |
| SnapshotVerify.OneFault | backend/app/scan.py:855-876 | A row that is kept has no fault, and no row has two |
| SnapshotVerify.CheckRemovedBatch | backend/app/scan.py:915-919 | A batch of removed paths passes, or fails with its first path that exists |
| SnapshotVerify.CheckSnapshotFsBatch | backend/app/scan.py:921-939 | A batch of rows gives an item for each, or fails with the first fault |
| SnapshotVerify.VerifySnapshotHashBatch | backend/app/scan.py:880-894 | A batch of items passes, or fails with the first fault |
| SnapshotVerify.BatchesCover | backend/app/scan.py:946-959 | The batches of a stage are its items, in order, whatever the batch size; all but the last have that size and none is empty |
| SnapshotVerify.StageIsRight | backend/app/scan.py:941-995 | A stage passes on the items' results in order when all pass, and otherwise gives the fault of one of them |
| SnapshotVerify.RowPasses | backend/app/scan.py:921-939 | The file-system check and then the hash check of what it read find exactly the faults of the row |
| SnapshotVerify.StagedAgrees | backend/app/scan.py:897-1016 | For every batch size, worker limit and schedule, the staged check succeeds exactly when the sequential one does, and a reason it gives is the fault of a path or row it was given |
| SnapshotVerify.StagedEnds | backend/app/scan.py:897-1016 | Some schedule runs the staged check to its end |
| ArchiveParts.ReadBatchSplits | backend/app/snapshots.py:302-309 | A read batch takes the stream apart without loss into chunks of the given size at most, and is empty only at its end |
| ArchiveParts.ReadBatchIsFull | backend/app/snapshots.py:302-309 | All chunks but the last have the chunk size, and a batch that leaves something unread is full |
| ArchiveParts.ArchiveStream.Read | backend/app/snapshots.py:305 | A read takes the next bytes off the stream |
| ArchiveParts.ReadChunkBatch | backend/app/snapshots.py:302-309 | The reading loop is that split, and leaves the stream at its rest |
| ArchiveParts.PartsInSequence | backend/app/snapshots.py:378-391 | Distinct part numbers between 1 and their count pass the check of the sorted parts |
| ArchiveParts.ValidatedSortedParts | backend/app/snapshots.py:378-391 | The parts pass exactly when there are some, their sorted numbers are 1, 2, 3 and so on, and each has an ETag |
| ArchiveUpload.UploadedInSequence | backend/app/snapshots.py:352-391 | The parts uploaded by workers in any order, once all are, sort into the chunks as read |
| ArchiveUpload.StepKeepsInv | backend/app/snapshots.py:338-467 | Every step keeps: what is put, pending and unread makes up the file; each part taken is with one worker or uploaded; the unfinished count; where workers are left |
| ArchiveUpload.NoDeadlock | backend/app/snapshots.py:352-434 | Until the call ends, its producer or one of its workers can go on |
| ArchiveUpload.StepMakesProgress | backend/app/snapshots.py:352-434 | Every step makes what is left to do smaller |
| ArchiveUpload.RunKeepsInv | backend/app/snapshots.py:338-467 | The invariant, the record of failures and the countdown hold in every state of every run |
| ArchiveUpload.AbortIsTried | backend/app/snapshots.py:460-467 | A call fails without trying to abort exactly when starting the upload failed |
| ArchiveUpload.WorkersLeft | backend/app/snapshots.py:400-446 | The workers are let go on every way out but a failure to close the archive |
| ArchiveUpload.CompletesOnlyWhole | backend/app/snapshots.py:448-459 | The store is never asked to complete an upload after a failure, nor with parts other than 1..n whose bodies make up the file and have the chunk size but for the last |
| ArchiveUpload.FailureStopsUploads | backend/app/snapshots.py:350-432 | Once a part has failed no upload begins, the archive is not read again, and at most the chunk being put is put |
| ArchiveUpload.RunsEndRight | backend/app/snapshots.py:338-467 | Every run is bounded and can go on to its end; it completes exactly when nothing failed and the file is not empty; otherwise an abort is tried, unless starting failed |
| ArchiveUpload.FailedCloseLeavesWorker | backend/app/snapshots.py:434-441 | A run whose close fails ends with a worker that can never go on |
| RuntimeLane.Lane.constructor | backend/app/infra/fs_runtime.py:90-102 | A lane starts idle with all its permits |
| RuntimeLane.Lane.EnterCall | backend/app/infra/fs_runtime.py:185-189 | A call that comes in waits and is counted, and the peak with it |
| RuntimeLane.Lane.GrantPermit | backend/app/infra/fs_runtime.py:193 | A permit goes to a waiting call |
| RuntimeLane.Lane.StartCall | backend/app/infra/fs_runtime.py:194-203 | A call goes on from waiting to in flight, one of each |
| RuntimeLane.Lane.FinishCall | backend/app/infra/fs_runtime.py:207-239 | A call that ends, however it does, leaves and gives its permit back |
| RuntimeLane.Lane.AbandonCall | backend/app/infra/fs_runtime.py:234-237 | A call cancelled while waiting leaves, and holds on to no permit |
| RuntimeLane.StepKeepsCount | backend/app/infra/cpu_runtime.py:142-205 | Every step keeps the counters equal to the calls they count and every permit accounted for |
| RuntimeLane.RunKeepsCount | backend/app/infra/fs_runtime.py:173-239 | In every interleaving with failures and cancellations: queue depth is the calls waiting, in flight the calls running, at most the limit, and no permit is lost or made up |
| RuntimeLane.ClampsNeverBite | backend/app/infra/fs_runtime.py:198-237 | No decrement is ever stopped at zero by `max(0, ...)` |
| RuntimeLane.IdleLaneIsFull | backend/app/infra/fs_runtime.py:173-239 | With no call left the counters are zero and the semaphore is full |
| RuntimeLane.WaitersGoOn | backend/app/infra/fs_runtime.py:193 | A call waits only while others hold every permit |
| RuntimeLane.PeaksAreReached | backend/app/infra/fs_runtime.py:185-200 | Each peak is the greatest value its counter has had |
| TaskQueue.Store.FindExistingJob | backend/app/services/task_queue.py:182-219 | A pending or running job with the key is found exactly when there is one, and the submit has then returned it; otherwise it goes on to its guard. The set and the table stay as they are |
| TaskQueue.Store.TryGuard | backend/app/services/task_queue.py:264-304 | One try of the guard: refused only when the set is full, with one more try after the first; a heavy id that passes is added and the set stays within the limit; nothing else changes |
| TaskQueue.Store.CreateJob | backend/app/services/task_queue.py:232-249 | The commit creates the job exactly when no active job has its key, and touches no other job |
| TaskQueue.Store.MarkEnqueueFailure | backend/app/services/task_queue.py:78-92 | The job whose enqueue failed is closed and no other changes |
| TaskQueue.Store.ReleaseInflight | backend/app/services/task_queue.py:326-331 | A submit that ends has no slot afterwards, and no other slot is touched |
| TaskQueue.Store.TouchInflight | backend/app/task_handlers.py:466-470 | A worker's add keeps the invariant and under a limit changes nothing |
| TaskQueue.Store.DecrementInflight | backend/app/task_handlers.py:473-477 | A worker that ends a job frees its slot while the job is still running, and no other slot |
| TaskQueue.Store.CommitStatus | backend/app/task_handlers.py:49-85 | The commit makes the job running, or closes it with its slot free, and changes no other job |
| TaskQueue.StepKeepsInv | backend/app/services/task_queue.py:373-454 | Every step of a submitter or worker keeps the invariant: whose slot each id is, which ids must be in the set, one active job for a key |
| TaskQueue.WorkKeepsLimit | backend/app/task_handlers.py:466-477 | A worker's add at `running` adds nothing under a limit, for the id is in the set already |
| TaskQueue.RunKeepsInv | backend/app/services/task_queue.py:373-454 | The invariant holds in every state of every interleaving |
| TaskQueue.FoundIsReturned | backend/app/services/task_queue.py:382-384 | In every interleaving a submit whose look-up comes while a job with its key is active returns that job at once, and never guards, creates, enqueues or raises |
| TaskQueue.FailsIff | backend/app/services/task_queue.py:373-454 | A submit is raising or has raised exactly when something it awaited failed or the guard found the set full twice |
| TaskQueue.ReturnsAnAnswer | backend/app/services/task_queue.py:373-415 | What a submit returns is a job it found active with its key, or its own once the enqueue of that has succeeded |
| TaskQueue.WorkerGoesOn | backend/app/task_handlers.py:49-85 | A job sent to a worker can always go on to its next stage: its slot touched, running, its slot freed, ended |
| TaskQueue.InflightIsBounded | backend/app/services/task_queue.py:259-333 | The set never exceeds the limit; a heavy job pending or running is missing from it exactly when it is inside its own terminal update or its submit has raised; and every id in it is of a submit or a job on its way |
| TaskQueue.PendingJobLeftOut | backend/app/services/task_queue.py:83-97 | A run in which a failed marking leaves a pending heavy job outside the set |
| TaskQueue.NoSlotLeaks | backend/app/services/task_queue.py:373-415 | When all submits and all jobs sent have ended, the set is empty |
| TaskQueue.LearntIsActive | backend/app/services/task_queue.py:222-256 | While no job with the key leaves, the job a submit has learnt of is active |
| TaskQueue.SubmitsAgree | backend/app/services/task_queue.py:373-454 | Submits that begin with the same organisation and key, while no such job leaves pending or running, return the same id |
| TaskQueue.EnqueuedOnce | backend/app/models.py:423-433 | In that time at most one enqueue for the key is tried |
| TsSplit.SplitTsParams | backend/app/api_contracts.py:370-421 | The scanner gives the stripped, non-empty pieces between top-level commas |
| TsSplit.PiecesJoinBack | backend/app/api_contracts.py:370-421 | The pieces joined by commas are the text, none has a top-level comma, and all but the last leave nothing open |
| TsSplit.SplittingIsStable | backend/app/api_contracts.py:370-421 | Splitting the comma-join of the tokens of any text gives the same tokens |
| TsSplit.ExtractCallArgs | backend/app/api_contracts.py:485-552 | The call scanner gives the stripped, non-empty pieces up to the parenthesis that closes the call |
| TsSplit.BalancedPieces | backend/app/api_contracts.py:485-552 | On balanced text the two scanners cut at the same commas |
| TsSplit.ScannersAgree | backend/app/api_contracts.py:485-552 | The arguments of a call whose text is balanced outside strings are what the parameter scanner makes of that text, whatever is before and after the call |
| TsSplit.NestedIsSkipped | backend/app/api_contracts.py:370-421 | Text with matching brackets of the four kinds and closed strings leaves nothing open, and no comma within a bracket or a string cuts it |
| TsSplit.CutsAtTopLevelOnly | backend/app/api_contracts.py:370-421 | Such texts joined by commas are cut at just those commas, both as parameters and as the arguments of a call |
| BraceBlock.ExtractBraceBlock | backend/app/parsing_utils.py:6-70 | The scanner with two characters in view gives the block of the one-character automaton |
| BraceBlock.BlockIsFirstReturn | backend/app/parsing_utils.py:6-70 | A block ends exactly where the depth of braces in code first returns to zero, and there is none if it never does |
| BraceBlock.RestNeverMatters | backend/app/parsing_utils.py:6-70 | Text after a block has no part in finding it |
| BraceBlock.InsertMovesEndIff | backend/app/parsing_utils.py:6-70 | Text put in before the closing brace moves the end by its length exactly when, read on from there, it ends in code and closes the braces it opens and no other |
| BraceBlock.InsertMovesEnd | backend/app/ts_edits.py:122-132 | It does so for text that is neutral in itself and opens no comment with the character before it, as the editors rely on |
| BraceBlock.BlockEndsAtMatch | backend/app/parsing_utils.py:6-70 | A block of code with matching braces ends at the brace that matches, whatever braces its strings of three kinds, with escapes, and its comments of both kinds hold |
| BraceBlock.TextIsNeutral | backend/app/parsing_utils.py:6-70 | Such code is neutral |
| BraceBlock.TextMovesEnd | backend/app/ts_edits.py:122-132 | Such code put in before the closing brace of any block moves its end by its length, unless it makes the character before it open a comment |
| TreeListing.BuildProjectTreePayload | backend/app/services/project_service.py:811-903 | A page holds the first entries of the window's listing; it is truncated exactly when full with entries left out or more rows to come; its cursor is then the last row with a child up to which the listing fits |
| TreeListing.CursorGivenIff | backend/app/services/project_service.py:881-903 | The same of the page as a value, for every window, settled or not |
| TreeListing.ChildOfNested | backend/app/services/project_service.py:867-881 | A path with more segments below the prefix stands for the directory of the first of them |
| TreeListing.ChildOfFile | backend/app/services/project_service.py:867-883 | A path with one segment below the prefix stands for that file under that name |
| TreeListing.ChildOfPrefix | backend/app/services/project_service.py:869-870 | The path that is the prefix itself stands for its own file under its last segment |
| TreeListing.ChildlessIff | backend/app/services/project_service.py:865-876 | A path has no child exactly when it is empty, lies outside the prefix or leaves no name |
| TreeListing.SiblingsAreContiguous | backend/app/services/project_service.py:811-903 | In path order the files under one child stand together |
| TreeListing.SiblingsAgree | backend/app/services/project_service.py:824-857 | Paths that stand for the same child give the same entry |
| TreeListing.ListedIsExact | backend/app/services/project_service.py:811-903 | The listing has each immediate child of the prefix exactly once and nothing else |
| TreeListing.ListedInRowOrder | backend/app/services/project_service.py:811-903 | Entries stand in the order of the first rows they come from |
| TreePaging.FullPage | backend/app/services/project_service.py:881-903 | A page that is full leaves to the next what it has not listed |
| TreePaging.PageCursorIff | backend/app/services/project_service.py:881-903 | Any page, settled or not, gives no cursor exactly when it is below its limit, or lists all the rows left with none cut off by the scan window; a cursor given is the last row with a child up to which the listing fits |
| TreePaging.ScanLimitIs | backend/app/services/project_service.py:1298 | The window is forty rows for an entry, at most 20000, and always wider than the page |
| TreePaging.OwnCursor | backend/app/services/project_service.py:1287-1289 | A path comes back unchanged as a cursor exactly when it is not blank, has no space at its ends and no backslash |
| TreePaging.CursorRead | backend/app/services/project_service.py:1287-1289 | A cursor is read without the whitespace around it and with slashes for backslashes, and not at all if blank |
| TreePaging.CursorLeavesIff | backend/app/services/project_service.py:1287-1299 | A cursor leaves exactly the rows after a given one if and only if the query reads it as a text not before that row and before the next |
| TreePaging.LandingLeaves | backend/app/services/project_service.py:1287-1299 | A cursor read as a text not before the last path consumed and before some path of the next child leaves fewer rows, and all that the page has not listed |
| TreePaging.FirstMatchesLands | backend/app/services/project_service.py:1287-1299 | No other cursor makes the next page begin with the first child not yet listed |
| TreePaging.ChainIsFull | backend/app/services/project_service.py:881-903 | Every page but the last holds exactly the limit |
| TreePaging.PagesListAllIff | backend/app/services/project_service.py:811-903 | When every page is settled, the pages from any cursor on are together the unpaged listing of what is left exactly when every cursor they give lands |
| TreePaging.FollowingEnds | backend/app/services/project_service.py:1267-1316 | When every cursor lands, following them ends, within one page more than there are rows |
| TreePaging.PagingListsAllIff | backend/app/services/project_service.py:1267-1316 | For rows that fit the scan window, following the cursors ends and lists each immediate child once, in order, if and only if every cursor lands |
| TreePaging.PlainPathsLand | backend/app/services/project_service.py:1287-1289 | Where no path has a space at an end or a backslash, every cursor lands |
| TreePaging.FittingRowsSettle | backend/app/services/project_service.py:1298-1301 | Rows that fit the scan window settle every page |
| TreePaging.LeadingSpaceLosesFile | backend/app/services/project_service.py:1287-1296 | With files " c.py", "a.py" and "d.py" listed one to a page, "a.py" is on no page |

## Left out

- Building skeletons from backend and frontend paths, and expressions in them: regular expressions and
  one loop each; the model starts from token lists and skeleton strings.
- Tokenising `//go:build` lines and the older `+build` form: the model starts from token lists.
- Parsing diffs into hunks: the model starts from hunks, and `max(0, (start or 1) - 1)` is modelled.
- Splitting `IN (...)` queries into chunks of 400 in the graph update: a chunked query gives the rows of
  the whole one. `LocalGraph` does model the chunks, since there the rows are read under a cap.
- The race between the prepare and the write stage of a scan, and a background recompute that runs after
  the call: an update that leaves a recompute pending promises nothing until that has run.
- Database collations other than by code points.
- NeighborsListBall: a negative `max_limit` is not modelled, because the query would then be refused by
  the database.
- `_reconcile_heavy_inflight_async`: it deletes the set and adds back the ids of active jobs in separate
  steps, and so can drop the id of a submit between its guard and its job, or take in a job that is
  ending; the bound on the set does not survive it. The retry of the guard after it is modelled.
- InflightIsBounded: does not model cancellation of a submit, crashes and redelivery of workers, a
  release that Redis refuses, or an enqueue that times out and is delivered all the same, because the
  code does not keep the bound or free the slot across them.
- Submits other than runs and scans: documents, snapshot imports and mutation indexing follow the scan.
- StagedAgrees: which of several faults the staged check reports is left open. The code takes the failed
  batch of least index among those that had failed when the group ended, which depends on the schedule.
- The clean-up after an error in the batch runner, which cancels the other workers: the run ends there.
- The semaphore in front of the store in the upload.
- Cancellation of the upload from outside. One that comes during the shutdown of the workers waits for
  it to end; one that comes while the archive is being closed never starts it, which strands the workers
  as a failed close does.
- RunKeepsCount: counts calls, not threads. A call cancelled while its function runs gives its permit
  back though the function goes on in its thread.
- The order in which a semaphore serves waiting calls, the timing in the log lines, and closing a
  runtime.
- ScannersAgree: says nothing of text that is not balanced. There the call scanner may stop early where
  the parameter scanner clamps the depth at zero and goes on.
- The fields of a file entry other than its path and name in a directory view, and cleaning the prefix
  given by the caller. The `LIKE` pattern is an arbitrary filter, for its wildcards may admit more rows.
- PagesListAllIff: requires every page to be settled, because the code gives no cursor for a page below its
  limit even when the scan window has cut rows off, and repeats a directory that a window cuts in two.
- Routes, authentication, quotas, prompts, embeddings, search scores and settings: one-branch logic or
  external services.
