/**
 * Checking that no file changed while a scan was being prepared: the sequential check, and the check
 * in three stages of batches run by concurrent workers. The two agree on every file system.
 * Models `_verify_scan_snapshot`, `_verify_snapshot_hash_batch` and `_verify_scan_snapshot_async`
 * of `backend/app/scan.py`.
 */
module SnapshotVerify {
  import opened Basics
  import opened BatchPipeline

  /** What `stat` gives of a file, and its text unless reading it fails. */
  datatype Entry = Entry(mtime: int, size: int, text: Option<string>)

  datatype HashKind = Content | Oversized | StatOnly | Other(name: string)

  datatype FileSnapshot = FileSnapshot(mtime: int, size: int, kind: HashKind, hash: string)

  type Row = (string, FileSnapshot)

  /** An unchanging file system, the hash function and the text hashed in place of an oversized file. */
  datatype Disk = Disk(files: map<string, Entry>, sha256: string -> string, oversized: (int, int) -> string)

  datatype Reason =
    | RemovedPathExists(rel: string)
    | Missing(rel: string)
    | StatChanged(rel: string)
    | ReadFailed(rel: string)
    | HashChanged(rel: string)
    | UnknownHashKind(rel: string)

  // ----- What the reasons mean -----

  predicate StatKept(disk: Disk, row: Row) {
    row.0 in disk.files && disk.files[row.0].mtime == row.1.mtime && disk.files[row.0].size == row.1.size
  }

  /** The file is as the snapshot has it. */
  predicate Kept(disk: Disk, row: Row) {
    && StatKept(disk, row)
    && match row.1.kind
       case Content => disk.files[row.0].text.Some? && disk.sha256(disk.files[row.0].text.value) == row.1.hash
       case Oversized => disk.sha256(disk.oversized(row.1.size, row.1.mtime)) == row.1.hash
       case StatOnly => true
       case Other(_) => false
  }

  predicate Faults(disk: Disk, row: Row, reason: Reason) {
    && row.0 == reason.rel
    && match reason
       case RemovedPathExists(_) => false
       case Missing(rel) => rel !in disk.files
       case StatChanged(rel) => rel in disk.files && !StatKept(disk, row)
       case ReadFailed(rel) => StatKept(disk, row) && row.1.kind.Content? && disk.files[rel].text.None?
       case HashChanged(rel) =>
         && StatKept(disk, row) && !Kept(disk, row)
         && (row.1.kind.Oversized? || (row.1.kind.Content? && disk.files[rel].text.Some?))
       case UnknownHashKind(rel) => StatKept(disk, row) && row.1.kind.Other?
  }

  /** A row has no fault when it is kept, and exactly one when it is not. */
  lemma OneFault(disk: Disk, row: Row, reason: Reason, other: Reason)
    ensures Kept(disk, row) ==> !Faults(disk, row, reason)
    ensures Faults(disk, row, reason) && Faults(disk, row, other) ==> reason == other
  {
  }

  ghost predicate AllKept(disk: Disk, snapshot: seq<Row>, removed: seq<string>) {
    && (forall k | 0 <= k < |removed| :: removed[k] !in disk.files)
    && (forall k | 0 <= k < |snapshot| :: Kept(disk, snapshot[k]))
  }

  ghost predicate Justified(disk: Disk, snapshot: seq<Row>, removed: seq<string>, reason: Reason) {
    if reason.RemovedPathExists? then reason.rel in removed && reason.rel in disk.files
    else exists row | row in snapshot :: Faults(disk, row, reason)
  }

  // ----- The sequential check -----

  /** The fault of the first path or row at fault, the removed paths first. */
  method VerifyScanSnapshot(disk: Disk, snapshot: seq<Row>, removed: seq<string>) returns (verdict: Option<Reason>)
    ensures verdict.None? <==> AllKept(disk, snapshot, removed)
    ensures verdict.Some? && verdict.value.RemovedPathExists? ==>
              exists k :: 0 <= k < |removed| && removed[k] == verdict.value.rel && removed[k] in disk.files
                && forall j | 0 <= j < k :: removed[j] !in disk.files
    ensures verdict.Some? && !verdict.value.RemovedPathExists? ==>
              exists k :: 0 <= k < |snapshot| && Faults(disk, snapshot[k], verdict.value)
                && AllKept(disk, snapshot[..k], removed)
  {
    for n := 0 to |removed|
      invariant forall j | 0 <= j < n :: removed[j] !in disk.files
    {
      if removed[n] in disk.files {
        return Some(RemovedPathExists(removed[n]));
      }
    }
    for n := 0 to |snapshot|
      invariant forall j | 0 <= j < n :: Kept(disk, snapshot[j])
    {
      var (rel, snap) := snapshot[n];
      assert AllKept(disk, snapshot[..n], removed);
      if rel !in disk.files {
        return Some(Missing(rel));
      }
      var st := disk.files[rel];
      if st.mtime != snap.mtime || st.size != snap.size {
        return Some(StatChanged(rel));
      }
      match snap.kind {
        case Content =>
          if st.text.None? {
            return Some(ReadFailed(rel));
          }
          if disk.sha256(st.text.value) != snap.hash {
            return Some(HashChanged(rel));
          }
        case Oversized =>
          if disk.sha256(disk.oversized(snap.size, snap.mtime)) != snap.hash {
            return Some(HashChanged(rel));
          }
        case StatOnly =>
        case Other(_) =>
          return Some(UnknownHashKind(rel));
      }
    }
    verdict := None;
  }

  // ----- The staged check: one batch -----

  /** A row with the text read for it. */
  datatype FsItem = FsItem(row: Row, text: Option<string>)

  function CheckRemoved(disk: Disk, rel: string): Result<(), Reason> {
    if rel in disk.files then Err(RemovedPathExists(rel)) else Ok(())
  }

  function CheckFs(disk: Disk, row: Row): Result<FsItem, Reason> {
    var (rel, snap) := row;
    if rel !in disk.files then Err(Missing(rel))
    else if disk.files[rel].mtime != snap.mtime || disk.files[rel].size != snap.size then Err(StatChanged(rel))
    else if snap.kind.Content? then
      if disk.files[rel].text.None? then Err(ReadFailed(rel)) else Ok(FsItem(row, disk.files[rel].text))
    else Ok(FsItem(row, None))
  }

  function CheckHash(disk: Disk, item: FsItem): Result<(), Reason> {
    var (rel, snap) := item.row;
    match snap.kind
    case Content =>
      var text := if item.text.Some? then item.text.value else "";
      if disk.sha256(text) != snap.hash then Err(HashChanged(rel)) else Ok(())
    case Oversized =>
      if disk.sha256(disk.oversized(snap.size, snap.mtime)) != snap.hash then Err(HashChanged(rel)) else Ok(())
    case StatOnly => Ok(())
    case Other(_) => Err(UnknownHashKind(rel))
  }

  /** A batch passes when all its items do, with what they gave; otherwise the first fault is its fault. */
  function RunBatch<T, U>(check: T -> Result<U, Reason>, batch: seq<T>): Result<seq<U>, Reason> {
    if batch == [] then Ok([])
    else
      match check(batch[0])
      case Err(reason) => Err(reason)
      case Ok(u) =>
        (match RunBatch(check, batch[1..])
         case Err(reason) => Err(reason)
         case Ok(us) => Ok([u] + us))
  }

  ghost predicate Mapped<T, U>(check: T -> Result<U, Reason>, items: seq<T>, values: seq<U>) {
    && |values| == |items|
    && forall i | 0 <= i < |items| :: check(items[i]) == Ok(values[i])
  }

  ghost predicate FirstFault<T, U>(check: T -> Result<U, Reason>, items: seq<T>, k: nat, reason: Reason) {
    && k < |items| && check(items[k]) == Err(reason)
    && forall i | 0 <= i < k :: check(items[i]).Ok?
  }

  lemma {:induction false} RunBatchPasses<T, U>(check: T -> Result<U, Reason>, batch: seq<T>, values: seq<U>)
    requires Mapped(check, batch, values)
    ensures RunBatch(check, batch) == Ok(values)
    decreases |batch|
  {
    if batch != [] {
      assert check(batch[0]) == Ok(values[0]);
      RunBatchPasses(check, batch[1..], values[1..]);
      assert [values[0]] + values[1..] == values;
    }
  }

  lemma {:induction false} RunBatchFails<T, U>(check: T -> Result<U, Reason>, batch: seq<T>, k: nat, reason: Reason)
    requires FirstFault(check, batch, k, reason)
    ensures RunBatch(check, batch) == Err(reason)
    decreases k
  {
    if k > 0 {
      assert check(batch[0]).Ok?;
      RunBatchFails(check, batch[1..], k - 1, reason);
    }
  }

  lemma {:induction false} RunBatchResult<T, U>(check: T -> Result<U, Reason>, batch: seq<T>)
    ensures RunBatch(check, batch).Ok? ==> Mapped(check, batch, RunBatch(check, batch).value)
    ensures RunBatch(check, batch).Err? ==> exists item | item in batch :: check(item) == Err(RunBatch(check, batch).error)
    decreases |batch|
  {
    if batch != [] {
      RunBatchResult(check, batch[1..]);
    }
  }

  method CheckRemovedBatch(disk: Disk, batch: seq<string>) returns (verdict: Result<seq<()>, Reason>)
    ensures verdict.Ok? <==> RunBatch(rel => CheckRemoved(disk, rel), batch).Ok?
    ensures verdict.Err? ==> verdict == RunBatch(rel => CheckRemoved(disk, rel), batch)
  {
    ghost var check: string -> Result<(), Reason> := rel => CheckRemoved(disk, rel);
    for n := 0 to |batch|
      invariant forall j | 0 <= j < n :: check(batch[j]).Ok?
    {
      if batch[n] in disk.files {
        RunBatchFails(check, batch, n, RemovedPathExists(batch[n]));
        return Err(RemovedPathExists(batch[n]));
      }
    }
    RunBatchPasses(check, batch, seq(|batch|, _ => ()));
    verdict := Ok([]);
  }

  method CheckSnapshotFsBatch(disk: Disk, batch: seq<Row>) returns (verdict: Result<seq<FsItem>, Reason>)
    ensures verdict == RunBatch(row => CheckFs(disk, row), batch)
  {
    ghost var check: Row -> Result<FsItem, Reason> := row => CheckFs(disk, row);
    var out: seq<FsItem> := [];
    for n := 0 to |batch|
      invariant Mapped(check, batch[..n], out)
    {
      var (rel, snap) := batch[n];
      assert forall j | 0 <= j < n :: batch[..n][j] == batch[j] && check(batch[j]).Ok?;
      if rel !in disk.files {
        RunBatchFails(check, batch, n, Missing(rel));
        return Err(Missing(rel));
      }
      var st := disk.files[rel];
      if st.mtime != snap.mtime || st.size != snap.size {
        RunBatchFails(check, batch, n, StatChanged(rel));
        return Err(StatChanged(rel));
      }
      if snap.kind.Content? {
        if st.text.None? {
          RunBatchFails(check, batch, n, ReadFailed(rel));
          return Err(ReadFailed(rel));
        }
        out := out + [FsItem((rel, snap), st.text)];
      } else {
        out := out + [FsItem((rel, snap), None)];
      }
    }
    assert batch[..|batch|] == batch;
    RunBatchPasses(check, batch, out);
    verdict := Ok(out);
  }

  method VerifySnapshotHashBatch(disk: Disk, batch: seq<FsItem>) returns (verdict: Result<seq<()>, Reason>)
    ensures verdict.Ok? <==> RunBatch(item => CheckHash(disk, item), batch).Ok?
    ensures verdict.Err? ==> verdict == RunBatch(item => CheckHash(disk, item), batch)
  {
    ghost var check: FsItem -> Result<(), Reason> := item => CheckHash(disk, item);
    for n := 0 to |batch|
      invariant forall j | 0 <= j < n :: check(batch[j]).Ok?
    {
      var (rel, snap) := batch[n].row;
      match snap.kind {
        case Content =>
          var text := if batch[n].text.Some? then batch[n].text.value else "";
          if disk.sha256(text) != snap.hash {
            RunBatchFails(check, batch, n, HashChanged(rel));
            return Err(HashChanged(rel));
          }
        case Oversized =>
          if disk.sha256(disk.oversized(snap.size, snap.mtime)) != snap.hash {
            RunBatchFails(check, batch, n, HashChanged(rel));
            return Err(HashChanged(rel));
          }
        case StatOnly =>
        case Other(_) =>
          RunBatchFails(check, batch, n, UnknownHashKind(rel));
          return Err(UnknownHashKind(rel));
      }
    }
    RunBatchPasses(check, batch, seq(|batch|, _ => ()));
    verdict := Ok([]);
  }

  // ----- The staged check: stages -----

  function AtLeastOne(n: int): nat {
    if n < 1 then 1 else n
  }

  /** The slices `items[start : start + batch_size]` in order. */
  function Batches<T>(items: seq<T>, size: nat): seq<seq<T>>
    requires size > 0
    decreases |items|
  {
    if items == [] then []
    else if |items| <= size then [items]
    else [items[..size]] + Batches(items[size..], size)
  }

  function Flatten<T>(lists: seq<seq<T>>): seq<T> {
    if lists == [] then [] else lists[0] + Flatten(lists[1..])
  }

  lemma {:induction false} BatchesCover<T>(items: seq<T>, size: nat)
    requires size > 0
    ensures Flatten(Batches(items, size)) == items
    ensures Batches(items, size) == [] <==> items == []
    ensures var batches := Batches(items, size);
            forall b | 0 <= b < |batches| ::
              if b < |batches| - 1 then |batches[b]| == size else 0 < |batches[b]| <= size
    decreases |items|
  {
    if |items| > size {
      BatchesCover(items[size..], size);
      assert items[..size] + items[size..] == items;
    } else if items != [] {
      assert Flatten([items]) == items + Flatten([]);
    }
  }

  lemma {:induction false} InFlatten<T>(lists: seq<seq<T>>, x: T)
    ensures x in Flatten(lists) <==> exists list | list in lists :: x in list
    decreases |lists|
  {
    if lists != [] {
      InFlatten(lists[1..], x);
    }
  }

  lemma {:induction false} FlattenMapped<T, U>(
    check: T -> Result<U, Reason>, batches: seq<seq<T>>, results: seq<seq<U>>)
    requires |batches| == |results|
    requires forall b | 0 <= b < |batches| :: Mapped(check, batches[b], results[b])
    ensures Mapped(check, Flatten(batches), Flatten(results))
    decreases |batches|
  {
    if batches != [] {
      FlattenMapped(check, batches[1..], results[1..]);
      assert Mapped(check, batches[0], results[0]);
    }
  }

  /** `_run_stage`: as many workers as batches at most, and a queue as long as the limit. */
  function StageJob<T, U>(items: seq<T>, size: nat, maxParallel: nat, check: T -> Result<U, Reason>)
    : (job: Job<seq<T>, seq<U>, Reason>)
    requires size > 0 && maxParallel > 0
    ensures items != [] ==> job.Valid()
    ensures job.workers <= maxParallel && job.workers <= |job.batches|
    ensures job.workers == maxParallel || job.workers == |job.batches|
  {
    var batches := Batches(items, size);
    var workers := if |batches| < maxParallel then |batches| else maxParallel;
    Job(batches, batch => RunBatch(check, batch), workers, maxParallel)
  }

  /** What a stage makes of the end of its task group. */
  predicate Gives<U(==)>(outcome: Outcome<seq<U>, Reason>, verdict: Result<seq<U>, Reason>) {
    match outcome
    case Running => false
    case Returned(results) => verdict == Ok(Flatten(results))
    case Raised(reason) => verdict == Err(reason)
  }

  /** A stage can end with `verdict` under some schedule of its producer and workers. */
  ghost predicate StageEnds<T, U(!new)>(
    items: seq<T>, size: nat, maxParallel: nat, check: T -> Result<U, Reason>, verdict: Result<seq<U>, Reason>)
    requires size > 0 && maxParallel > 0
  {
    if items == [] then verdict == Ok([])
    else exists outcome ::
      && Ends(StageJob(items, size, maxParallel, check), outcome)
      && Gives(outcome, verdict)
  }

  lemma SomeStageEnds<T, U(!new)>(items: seq<T>, size: nat, maxParallel: nat, check: T -> Result<U, Reason>)
    returns (verdict: Result<seq<U>, Reason>)
    requires size > 0 && maxParallel > 0
    ensures StageEnds(items, size, maxParallel, check, verdict)
  {
    if items == [] {
      verdict := Ok([]);
    } else {
      BatchesCover(items, size);
      var outcome := SomeRunEnds(StageJob(items, size, maxParallel, check));
      verdict := if outcome.Returned? then Ok(Flatten(outcome.results)) else Err(outcome.error);
      assert Gives(outcome, verdict);
    }
  }

  lemma StageIsRight<T, U(!new)>(
    items: seq<T>, size: nat, maxParallel: nat, check: T -> Result<U, Reason>, verdict: Result<seq<U>, Reason>)
    requires size > 0 && maxParallel > 0
    requires StageEnds(items, size, maxParallel, check, verdict)
    ensures verdict.Ok? ==> Mapped(check, items, verdict.value)
    ensures verdict.Err? ==> exists item | item in items :: check(item) == Err(verdict.error)
  {
    if items != [] {
      var job := StageJob(items, size, maxParallel, check);
      BatchesCover(items, size);
      var outcome :| Ends(job, outcome) && Gives(outcome, verdict);
      EndIsRight(job, outcome);
      if outcome.Returned? {
        forall b | 0 <= b < |job.batches| ensures Mapped(check, job.batches[b], outcome.results[b]) {
          assert job.process(job.batches[b]) == Ok(outcome.results[b]);
          RunBatchResult(check, job.batches[b]);
        }
        FlattenMapped(check, job.batches, outcome.results);
      } else {
        var batch :| batch in job.batches && job.process(batch) == Err(outcome.error);
        RunBatchResult(check, batch);
        var item :| item in batch && check(item) == Err(outcome.error);
        InFlatten(job.batches, item);
      }
    }
  }

  /** `_verify_scan_snapshot_async` can give `verdict` under some schedule of the stages it runs. */
  ghost predicate VerifyEnds(
    disk: Disk, snapshot: seq<Row>, removed: seq<string>, batchSize: int, maxParallel: int, verdict: Option<Reason>)
  {
    var size, width := AtLeastOne(batchSize), AtLeastOne(maxParallel);
    exists gone: Result<seq<()>, Reason> ::
      && StageEnds(removed, size, width, rel => CheckRemoved(disk, rel), gone)
      && if gone.Err? then verdict == Some(gone.error) else
      exists read: Result<seq<FsItem>, Reason> ::
        && StageEnds(snapshot, size, width, row => CheckFs(disk, row), read)
        && if read.Err? then verdict == Some(read.error) else
        exists hashed: Result<seq<()>, Reason> ::
          && StageEnds(read.value, size, width, item => CheckHash(disk, item), hashed)
          && verdict == if hashed.Err? then Some(hashed.error) else None
  }

  lemma RowPasses(disk: Disk, row: Row)
    ensures CheckFs(disk, row).Err? ==> Faults(disk, row, CheckFs(disk, row).error)
    ensures CheckFs(disk, row).Ok? ==>
              var item := CheckFs(disk, row).value;
              && item.row == row
              && (CheckHash(disk, item).Ok? <==> Kept(disk, row))
              && (CheckHash(disk, item).Err? ==> Faults(disk, row, CheckHash(disk, item).error))
  {
  }

  /**
   * For every batch size, worker limit and schedule, the staged check succeeds exactly when the
   * sequential one does, and a reason it gives is the fault of a path or row it was given.
   */
  lemma StagedAgrees(
    disk: Disk, snapshot: seq<Row>, removed: seq<string>, batchSize: int, maxParallel: int, verdict: Option<Reason>)
    requires VerifyEnds(disk, snapshot, removed, batchSize, maxParallel, verdict)
    ensures verdict.None? <==> AllKept(disk, snapshot, removed)
    ensures verdict.Some? ==> Justified(disk, snapshot, removed, verdict.value)
  {
    hide StageEnds;
    var size, width := AtLeastOne(batchSize), AtLeastOne(maxParallel);
    var onRemoved: string -> Result<(), Reason> := rel => CheckRemoved(disk, rel);
    var onRow: Row -> Result<FsItem, Reason> := row => CheckFs(disk, row);
    var onItem: FsItem -> Result<(), Reason> := item => CheckHash(disk, item);
    var gone :| StageEnds(removed, size, width, onRemoved, gone)
      && if gone.Err? then verdict == Some(gone.error) else
         exists read: Result<seq<FsItem>, Reason> ::
           && StageEnds(snapshot, size, width, onRow, read)
           && if read.Err? then verdict == Some(read.error) else
              exists hashed: Result<seq<()>, Reason> ::
                && StageEnds(read.value, size, width, onItem, hashed)
                && verdict == if hashed.Err? then Some(hashed.error) else None;
    StageIsRight(removed, size, width, onRemoved, gone);
    if gone.Err? {
      var rel :| rel in removed && onRemoved(rel) == Err(gone.error);
      return;
    }
    assert forall k | 0 <= k < |removed| :: onRemoved(removed[k]).Ok?;
    var read :| StageEnds(snapshot, size, width, onRow, read)
      && if read.Err? then verdict == Some(read.error) else
         exists hashed: Result<seq<()>, Reason> ::
           && StageEnds(read.value, size, width, onItem, hashed)
           && verdict == if hashed.Err? then Some(hashed.error) else None;
    StageIsRight(snapshot, size, width, onRow, read);
    if read.Err? {
      var row :| row in snapshot && onRow(row) == Err(read.error);
      RowPasses(disk, row);
      return;
    }
    var hashed :| StageEnds(read.value, size, width, onItem, hashed)
      && verdict == if hashed.Err? then Some(hashed.error) else None;
    StageIsRight(read.value, size, width, onItem, hashed);
    forall k | 0 <= k < |snapshot|
      ensures CheckFs(disk, snapshot[k]) == Ok(read.value[k])
      ensures onItem(read.value[k]).Ok? <==> Kept(disk, snapshot[k])
    {
      assert onRow(snapshot[k]) == Ok(read.value[k]);
      RowPasses(disk, snapshot[k]);
    }
    if hashed.Err? {
      var item :| item in read.value && onItem(item) == Err(hashed.error);
      var k :| 0 <= k < |read.value| && read.value[k] == item;
      RowPasses(disk, snapshot[k]);
      assert Faults(disk, snapshot[k], hashed.error);
    } else {
      assert forall k | 0 <= k < |snapshot| :: onItem(read.value[k]).Ok?;
    }
  }

  /** Some schedule runs the staged check to its end. */
  lemma StagedEnds(disk: Disk, snapshot: seq<Row>, removed: seq<string>, batchSize: int, maxParallel: int)
    returns (verdict: Option<Reason>)
    ensures VerifyEnds(disk, snapshot, removed, batchSize, maxParallel, verdict)
  {
    hide StageEnds;
    var size, width := AtLeastOne(batchSize), AtLeastOne(maxParallel);
    var gone := SomeStageEnds(removed, size, width, rel => CheckRemoved(disk, rel));
    if gone.Err? {
      return Some(gone.error);
    }
    var read := SomeStageEnds(snapshot, size, width, row => CheckFs(disk, row));
    if read.Err? {
      return Some(read.error);
    }
    var hashed := SomeStageEnds(read.value, size, width, item => CheckHash(disk, item));
    verdict := if hashed.Err? then Some(hashed.error) else None;
  }
}
