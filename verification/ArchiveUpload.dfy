/**
 * The multipart upload of a snapshot archive: one producer that reads the file, a bounded queue and
 * workers that upload its parts. A step is the code between two awaits, and every await on the store
 * or on the file may fail. Models `_upload_archive_to_s3`, with its `_upload_worker` and
 * `_shutdown_workers`, of `backend/app/snapshots.py`.
 */
module ArchiveUpload {
  import opened ArchiveParts
  import opened Basics

  // ----- The states of an upload -----

  datatype Config = Config(file: Bytes, chunkSize: nat, batchSize: nat, concurrency: nat) {
    predicate Valid() {
      chunkSize > 0 && batchSize > 0 && concurrency > 0
    }
  }

  datatype Item = Chunk(part: Part) | Stop

  datatype Worker = Idle | Busy(part: Part) | Done

  /** Where the producer is; `failed` is an exception on its way out. `Top` is the head of the read loop. */
  datatype Producer =
    | Create
    | Open
    | Top
    | Read
    | Offer(rest: seq<Bytes>)
    | Blocked(rest: seq<Bytes>)
    | Close(failed: bool)
    | Stopping(failed: bool)
    | Join(failed: bool)
    | Settle
    | Complete(parts: seq<Part>)
    | Abort
    | Completed(parts: seq<Part>)
    | Failed(abortTried: bool)

  /** `sent` and `stops` are what has been put on the queue, `unfinished` what it waits for in `join()`. */
  datatype Shared = Shared(
    sent: seq<Bytes>, stops: nat, queue: seq<Item>, unfinished: int, workers: seq<Worker>, parts: seq<Part>,
    broken: bool)

  /** `faults` records whether any await has failed so far. */
  datatype State = State(producer: Producer, stream: Bytes, shared: Shared, faults: bool)

  function Init(cfg: Config): State {
    State(Create, cfg.file, Shared([], 0, [], 0, [], [], false), false)
  }

  datatype Step =
    | Advance
    | Fail
    | Take(worker: nat)
    | PartReply(worker: nat, etag: string)
    | PartFails(worker: nat)

  predicate Ended(s: State) {
    s.producer.Completed? || s.producer.Failed?
  }

  predicate Enabled(cfg: Config, s: State, step: Step) {
    var sh := s.shared;
    match step
    case Advance =>
      && !Ended(s)
      && (s.producer.Blocked? || s.producer.Stopping? ==> |sh.queue| < cfg.concurrency)
      && (s.producer.Join? ==> sh.unfinished == 0 && forall w | w in sh.workers :: w.Done?)
    case Fail => s.producer.Create? || s.producer.Open? || s.producer.Read? || s.producer.Close? || s.producer.Complete?
    case Take(i) => i < |sh.workers| && sh.workers[i].Idle? && sh.queue != []
    case PartReply(i, _) => i < |sh.workers| && sh.workers[i].Busy?
    case PartFails(i) => i < |sh.workers| && sh.workers[i].Busy?
  }

  /** The next thing the producer does, when what it awaits succeeds. */
  function Advanced(cfg: Config, s: State): State
    requires cfg.Valid() && Enabled(cfg, s, Advance)
  {
    var sh := s.shared;
    match s.producer
    case Create => s.(producer := Open)
    case Open => s.(producer := Top, shared := sh.(workers := seq(cfg.concurrency, _ => Idle)))
    case Top => s.(producer := if sh.broken then Close(true) else Read)
    case Read =>
      var (chunks, left) := ReadBatch(s.stream, cfg.chunkSize, cfg.batchSize);
      s.(producer := if chunks == [] then Close(false) else Offer(chunks), stream := left)
    case Offer(rest) => s.(producer := if sh.broken then Close(true) else Blocked(rest))
    case Blocked(rest) =>
      if rest == [] then s.(producer := Top)
      else s.(producer := if |rest| == 1 then Top else Offer(rest[1..]), shared := PutChunk(sh, rest[0]))
    case Close(failed) => s.(producer := Stopping(failed))
    case Stopping(failed) =>
      s.(producer := if sh.stops + 1 == cfg.concurrency then Join(failed) else Stopping(failed), shared := PutStop(sh))
    case Join(failed) => s.(producer := if failed then Abort else Settle)
    case Settle =>
      var sorted := Sorted(sh.parts);
      s.(producer := if sh.broken || sh.parts == [] || !InSequence(sorted) || !Tagged(sorted) then Abort
                     else Complete(sorted))
    case Complete(parts) => s.(producer := Completed(parts))
    case Abort => s.(producer := Failed(true))
  }

  /** What the producer does when what it awaits raises. */
  function Raised(s: State): State
    requires s.producer.Create? || s.producer.Open? || s.producer.Read? || s.producer.Close? || s.producer.Complete?
  {
    var next := if s.producer.Create? then Failed(false) else if s.producer.Read? then Close(true) else Abort;
    s.(producer := next, faults := true)
  }

  function PutChunk(sh: Shared, chunk: Bytes): Shared {
    sh.(sent := sh.sent + [chunk], queue := sh.queue + [Chunk(Part(|sh.sent| + 1, chunk, ""))],
        unfinished := sh.unfinished + 1)
  }

  function PutStop(sh: Shared): Shared {
    sh.(stops := sh.stops + 1, queue := sh.queue + [Stop], unfinished := sh.unfinished + 1)
  }

  /** After a part has failed the workers only empty the queue. */
  function TakeItem(sh: Shared, i: nat): Shared
    requires i < |sh.workers| && sh.queue != []
  {
    var rest := sh.queue[1..];
    match sh.queue[0]
    case Stop => sh.(queue := rest, workers := sh.workers[i := Done], unfinished := sh.unfinished - 1)
    case Chunk(part) =>
      if sh.broken then sh.(queue := rest, unfinished := sh.unfinished - 1)
      else sh.(queue := rest, workers := sh.workers[i := Busy(part)])
  }

  /** An upload that has come to its end; without an ETag the part counts as failed. */
  function FinishPart(sh: Shared, i: nat, etag: string): Shared
    requires i < |sh.workers| && sh.workers[i].Busy?
  {
    sh.(workers := sh.workers[i := Idle], unfinished := sh.unfinished - 1,
        parts := if etag != "" then sh.parts + [sh.workers[i].part.(etag := etag)] else sh.parts,
        broken := sh.broken || etag == "")
  }

  predicate Failing(step: Step) {
    step.Fail? || step.PartFails? || (step.PartReply? && step.etag == "")
  }

  function Apply(cfg: Config, s: State, step: Step): State
    requires cfg.Valid() && Enabled(cfg, s, step)
  {
    match step
    case Advance => Advanced(cfg, s)
    case Fail => Raised(s)
    case Take(i) => s.(shared := TakeItem(s.shared, i))
    case PartReply(i, etag) => s.(shared := FinishPart(s.shared, i, etag), faults := s.faults || etag == "")
    case PartFails(i) => s.(shared := FinishPart(s.shared, i, ""), faults := true)
  }

  // ----- The invariant -----

  const IsDone: Worker -> nat := (w: Worker) => if w.Done? then 1 else 0
  const IsBusy: Worker -> nat := (w: Worker) => if w.Busy? then 1 else 0

  function Taken(sh: Shared): int {
    |sh.sent| + sh.stops - |sh.queue|
  }

  /** How many of the parts put have been taken by a worker. */
  function PartsTaken(sh: Shared): int {
    if Taken(sh) < |sh.sent| then Taken(sh) else |sh.sent|
  }

  function ItemAt(sh: Shared, k: nat): Item {
    if k < |sh.sent| then Chunk(Part(k + 1, sh.sent[k], "")) else Stop
  }

  ghost predicate QueueOk(cfg: Config, sh: Shared) {
    && |sh.queue| <= cfg.concurrency && Taken(sh) >= 0
    && forall k | 0 <= k < |sh.queue| :: sh.queue[k] == ItemAt(sh, Taken(sh) + k)
  }

  /** The part is one of those taken, as it was read. */
  ghost predicate Genuine(sh: Shared, p: Part) {
    1 <= p.number <= PartsTaken(sh) && p.body == sh.sent[p.number - 1]
  }

  ghost predicate PartsOk(sh: Shared) {
    && (forall p | p in sh.parts :: Genuine(sh, p))
    && Distinct(sh.parts) && Tagged(sh.parts)
    && (forall i | 0 <= i < |sh.workers| && sh.workers[i].Busy? ::
          Genuine(sh, sh.workers[i].part) && forall p | p in sh.parts :: p.number != sh.workers[i].part.number)
    && (forall i, j | 0 <= i < j < |sh.workers| && sh.workers[i].Busy? && sh.workers[j].Busy? ::
          sh.workers[i].part.number != sh.workers[j].part.number)
  }

  ghost predicate CountsOk(sh: Shared) {
    && Tally(sh.workers, IsDone) == (if Taken(sh) > |sh.sent| then Taken(sh) - |sh.sent| else 0)
    && sh.unfinished == |sh.queue| + Tally(sh.workers, IsBusy)
    && (!sh.broken ==> |sh.parts| + Tally(sh.workers, IsBusy) == PartsTaken(sh))
  }

  ghost predicate SharedOk(cfg: Config, sh: Shared) {
    QueueOk(cfg, sh) && PartsOk(sh) && CountsOk(sh) && AllFit(cfg.chunkSize, sh.sent)
  }

  /** What of the file has been read, and where the call stands. */
  ghost predicate ProducerOk(cfg: Config, s: State) {
    var sh := s.shared;
    && (sh.broken ==> s.faults)
    && (match s.producer
        case Create => s.stream == cfg.file && sh == Init(cfg).shared && !s.faults
        case Open => s.stream == cfg.file && sh == Init(cfg).shared && !s.faults
        case Top => Flatten(sh.sent) + s.stream == cfg.file && s.faults == sh.broken && Manned(cfg, sh, 0)
        case Read => Flatten(sh.sent) + s.stream == cfg.file && s.faults == sh.broken && Manned(cfg, sh, 0)
        case Offer(rest) =>
          && rest != [] && AllFit(cfg.chunkSize, rest) && Flatten(sh.sent) + Flatten(rest) + s.stream == cfg.file
          && s.faults == sh.broken && Manned(cfg, sh, 0)
        case Blocked(rest) =>
          && rest != [] && AllFit(cfg.chunkSize, rest) && Flatten(sh.sent) + Flatten(rest) + s.stream == cfg.file
          && s.faults == sh.broken && Manned(cfg, sh, 0)
        case Close(failed) => AllRead(cfg, s, failed) && Manned(cfg, sh, 0)
        case Stopping(failed) => AllRead(cfg, s, failed) && Manned(cfg, sh, sh.stops) && sh.stops < cfg.concurrency
        case Join(failed) => AllRead(cfg, s, failed) && Manned(cfg, sh, cfg.concurrency)
        case Settle => AllRead(cfg, s, false) && Quiet(cfg, sh)
        case Complete(parts) => Quiet(cfg, sh) && !s.faults && Whole(cfg, parts)
        case Completed(parts) => Quiet(cfg, sh) && !s.faults && Whole(cfg, parts)
        case Abort => (s.faults || cfg.file == []) && LeftBy(cfg, sh)
        case Failed(abortTried) =>
          (s.faults || cfg.file == []) && if abortTried then LeftBy(cfg, sh) else sh == Init(cfg).shared)
  }

  ghost predicate AllRead(cfg: Config, s: State, failed: bool) {
    if failed then s.faults else Flatten(s.shared.sent) == cfg.file && s.faults == s.shared.broken
  }

  ghost predicate Manned(cfg: Config, sh: Shared, stops: nat) {
    |sh.workers| == cfg.concurrency && sh.stops == stops
  }

  /** Every worker has returned and the queue is empty. */
  ghost predicate Quiet(cfg: Config, sh: Shared) {
    Manned(cfg, sh, cfg.concurrency) && sh.queue == [] && forall w | w in sh.workers :: w.Done?
  }

  /** The workers have returned, have never been started, or have been sent no sentinel. */
  ghost predicate LeftBy(cfg: Config, sh: Shared) {
    Quiet(cfg, sh) || sh.workers == [] || Manned(cfg, sh, 0)
  }

  function Bodies(parts: seq<Part>): (bodies: seq<Bytes>)
    ensures |bodies| == |parts| && forall i | 0 <= i < |parts| :: bodies[i] == parts[i].body
  {
    if parts == [] then [] else [parts[0].body] + Bodies(parts[1..])
  }

  /** Parts numbered from 1, none empty or over the chunk size, whose bodies make up the file. */
  ghost predicate Whole(cfg: Config, parts: seq<Part>) {
    && parts != [] && InSequence(parts) && Tagged(parts)
    && AllFit(cfg.chunkSize, Bodies(parts)) && Flatten(Bodies(parts)) == cfg.file
  }

  ghost predicate Inv(cfg: Config, s: State) {
    cfg.Valid() && SharedOk(cfg, s.shared) && ProducerOk(cfg, s)
  }

  lemma InitInv(cfg: Config)
    requires cfg.Valid()
    ensures Inv(cfg, Init(cfg))
  {
  }

  // ----- Each step keeps the shared state in order -----

  lemma HireKeepsShared(cfg: Config, sh: Shared)
    requires cfg.Valid() && SharedOk(cfg, sh) && sh == Init(cfg).shared
    ensures SharedOk(cfg, sh.(workers := seq(cfg.concurrency, _ => Idle)))
  {
    var workers: seq<Worker> := seq(cfg.concurrency, _ => Idle);
    TallyBounds(workers, IsDone);
    TallyBounds(workers, IsBusy);
  }

  lemma PutChunkKeepsShared(cfg: Config, sh: Shared, chunk: Bytes)
    requires SharedOk(cfg, sh) && sh.stops == 0 && |sh.queue| < cfg.concurrency && Fits(cfg.chunkSize, chunk)
    ensures SharedOk(cfg, PutChunk(sh, chunk))
  {
    hide Tally;
    var t := PutChunk(sh, chunk);
    assert Taken(t) == Taken(sh);
    forall k | 0 <= k < |t.queue| ensures t.queue[k] == ItemAt(t, Taken(t) + k) {
      if k < |sh.queue| {
        assert sh.queue[k] == ItemAt(sh, Taken(sh) + k);
      }
    }
    assert PartsOk(t);
  }

  lemma PutStopKeepsShared(cfg: Config, sh: Shared)
    requires SharedOk(cfg, sh) && |sh.queue| < cfg.concurrency
    ensures SharedOk(cfg, PutStop(sh))
  {
    hide Tally;
    var t := PutStop(sh);
    assert Taken(t) == Taken(sh);
    forall k | 0 <= k < |t.queue| ensures t.queue[k] == ItemAt(t, Taken(t) + k) {
      if k < |sh.queue| {
        assert sh.queue[k] == ItemAt(sh, Taken(sh) + k);
      }
    }
    assert PartsOk(t);
  }

  lemma TakeKeepsQueue(cfg: Config, sh: Shared, i: nat)
    requires SharedOk(cfg, sh) && i < |sh.workers| && sh.queue != []
    ensures QueueOk(cfg, TakeItem(sh, i)) && Taken(TakeItem(sh, i)) == Taken(sh) + 1
    ensures sh.queue[0] == ItemAt(sh, Taken(sh))
  {
    hide Tally;
    var t := TakeItem(sh, i);
    assert sh.queue[0] == ItemAt(sh, Taken(sh) + 0);
    forall k | 0 <= k < |t.queue| ensures t.queue[k] == ItemAt(t, Taken(t) + k) {
      assert sh.queue[k + 1] == ItemAt(sh, Taken(sh) + (k + 1));
    }
  }

  lemma TakeKeepsShared(cfg: Config, sh: Shared, i: nat)
    requires SharedOk(cfg, sh) && i < |sh.workers| && sh.workers[i].Idle? && sh.queue != []
    ensures SharedOk(cfg, TakeItem(sh, i))
  {
    hide Tally;
    var t := TakeItem(sh, i);
    TakeKeepsQueue(cfg, sh, i);
    hide QueueOk;
    TallyUpdate(sh.workers, i, t.workers[i], IsDone);
    TallyUpdate(sh.workers, i, t.workers[i], IsBusy);
    assert sh.workers[i := sh.workers[i]] == sh.workers;
    assert PartsOk(t);
  }

  lemma FinishKeepsShared(cfg: Config, sh: Shared, i: nat, etag: string)
    requires SharedOk(cfg, sh) && i < |sh.workers| && sh.workers[i].Busy?
    ensures SharedOk(cfg, FinishPart(sh, i, etag))
  {
    hide Tally;
    var t := FinishPart(sh, i, etag);
    TallyUpdate(sh.workers, i, Idle, IsDone);
    TallyUpdate(sh.workers, i, Idle, IsBusy);
    assert Taken(t) == Taken(sh);
    assert PartsOk(t);
  }

  // ----- Each step keeps the invariant -----

  lemma ReadKeepsInv(cfg: Config, s: State)
    requires Inv(cfg, s) && s.producer.Read?
    ensures Inv(cfg, Advanced(cfg, s))
  {
    hide SharedOk;
    var (chunks, left) := ReadBatch(s.stream, cfg.chunkSize, cfg.batchSize);
    ReadBatchSplits(s.stream, cfg.chunkSize, cfg.batchSize);
    if chunks == [] {
      assert Flatten(s.shared.sent) + s.stream == Flatten(s.shared.sent);
    } else {
      assert Flatten(s.shared.sent) + Flatten(chunks) + left == Flatten(s.shared.sent) + (Flatten(chunks) + left);
    }
  }

  lemma PutKeepsInv(cfg: Config, s: State)
    requires Inv(cfg, s) && s.producer.Blocked? && Enabled(cfg, s, Advance)
    ensures Inv(cfg, Advanced(cfg, s))
  {
    var rest, sent := s.producer.rest, s.shared.sent;
    PutChunkKeepsShared(cfg, s.shared, rest[0]);
    hide SharedOk;
    FirstChunk(rest[0], rest[1..], s.stream);
    assert [rest[0]] + rest[1..] == rest;
    FlattenConcat(sent, [rest[0]]);
    FlattenOne(rest[0]);
    assert rest[1..] == [] ==> Flatten(rest[1..]) == [];
    hide Flatten;
    Assoc(Flatten(sent), Flatten(rest), s.stream);
    Assoc(Flatten(sent), rest[0], Flatten(rest[1..]) + s.stream);
    Assoc(Flatten(sent + [rest[0]]), Flatten(rest[1..]), s.stream);
    if |rest| == 1 {
      assert [] + s.stream == s.stream;
    }
  }

  lemma JoinKeepsInv(cfg: Config, s: State)
    requires Inv(cfg, s) && s.producer.Join? && Enabled(cfg, s, Advance)
    ensures Inv(cfg, Advanced(cfg, s))
  {
    assert s.shared.queue == [];
  }

  lemma CountUploaded(cfg: Config, sh: Shared)
    requires SharedOk(cfg, sh) && Quiet(cfg, sh) && !sh.broken
    ensures |sh.parts| == |sh.sent|
  {
    forall i | 0 <= i < |sh.workers| ensures IsBusy(sh.workers[i]) == 0 {
      assert sh.workers[i] in sh.workers;
    }
    TallyBounds(sh.workers, IsBusy);
  }

  /** With no part failed, the parts in sequence are the chunks read. */
  lemma UploadedInSequence(sh: Shared)
    requires PartsOk(sh) && |sh.parts| == |sh.sent|
    ensures InSequence(Sorted(sh.parts)) && Tagged(Sorted(sh.parts)) && |Sorted(sh.parts)| == |sh.sent|
    ensures forall i | 0 <= i < |sh.sent| :: Sorted(sh.parts)[i].body == sh.sent[i]
  {
    PartsInSequence(sh.parts);
    SortedTagged(sh.parts);
    SortedPermutes(sh.parts);
    hide Sorted;
    var sorted := Sorted(sh.parts);
    forall i | 0 <= i < |sorted| ensures sorted[i].body == sh.sent[i] {
      assert sorted[i] in multiset(sh.parts);
      assert Genuine(sh, sorted[i]);
    }
  }

  lemma SettleKeepsInv(cfg: Config, s: State)
    requires Inv(cfg, s) && s.producer.Settle?
    ensures Inv(cfg, Advanced(cfg, s))
  {
    var sh := s.shared;
    hide Sorted, Tally, Distinct;
    if !sh.broken {
      CountUploaded(cfg, sh);
      UploadedInSequence(sh);
      assert AllFit(cfg.chunkSize, sh.sent);
      hide SharedOk;
      var sorted := Sorted(sh.parts);
      assert Bodies(sorted) == sh.sent;
    }
  }

  lemma OpenKeepsInv(cfg: Config, s: State)
    requires Inv(cfg, s) && s.producer.Open?
    ensures Inv(cfg, Advanced(cfg, s))
  {
    HireKeepsShared(cfg, s.shared);
    hide SharedOk;
    assert Flatten([]) + s.stream == s.stream;
  }

  lemma StoppingKeepsInv(cfg: Config, s: State)
    requires Inv(cfg, s) && s.producer.Stopping? && Enabled(cfg, s, Advance)
    ensures Inv(cfg, Advanced(cfg, s))
  {
    PutStopKeepsShared(cfg, s.shared);
    hide SharedOk, Flatten;
  }

  lemma AdvanceKeepsInv(cfg: Config, s: State)
    requires Inv(cfg, s) && Enabled(cfg, s, Advance)
    ensures Inv(cfg, Advanced(cfg, s))
  {
    hide SharedOk, Flatten, InSequence, Quiet;
    match s.producer
    case Read => ReadKeepsInv(cfg, s);
    case Blocked(_) => PutKeepsInv(cfg, s);
    case Join(_) => JoinKeepsInv(cfg, s);
    case Settle => SettleKeepsInv(cfg, s);
    case Open => OpenKeepsInv(cfg, s);
    case Stopping(_) => StoppingKeepsInv(cfg, s);
    case _ =>
  }

  /** A step of a worker leaves the producer where it may be: no worker is at work once all have returned. */
  lemma WorkerKeepsProducer(cfg: Config, s: State, t: State, i: nat)
    requires Inv(cfg, s) && i < |s.shared.workers| && !s.shared.workers[i].Done?
    requires t.producer == s.producer && t.stream == s.stream
    requires t.shared.sent == s.shared.sent && t.shared.stops == s.shared.stops
    requires |t.shared.workers| == |s.shared.workers|
    requires (t.shared.broken == s.shared.broken && t.faults == s.faults) || (t.shared.broken && t.faults)
    ensures ProducerOk(cfg, t)
  {
    hide SharedOk, Flatten, InSequence;
    assert s.shared.workers[i] in s.shared.workers;
  }

  /** Every step keeps the invariant. */
  lemma StepKeepsInv(cfg: Config, s: State, step: Step)
    requires Inv(cfg, s) && Enabled(cfg, s, step)
    ensures Inv(cfg, Apply(cfg, s, step))
  {
    hide SharedOk, Flatten, InSequence, Quiet;
    match step
    case Advance => AdvanceKeepsInv(cfg, s);
    case Fail => RaiseKeepsInv(cfg, s);
    case Take(i) => TakeKeepsShared(cfg, s.shared, i); WorkerKeepsProducer(cfg, s, Apply(cfg, s, step), i);
    case PartReply(i, etag) => FinishKeepsShared(cfg, s.shared, i, etag); WorkerKeepsProducer(cfg, s, Apply(cfg, s, step), i);
    case PartFails(i) => FinishKeepsShared(cfg, s.shared, i, ""); WorkerKeepsProducer(cfg, s, Apply(cfg, s, step), i);
  }

  lemma RaiseKeepsInv(cfg: Config, s: State)
    requires Inv(cfg, s) && Enabled(cfg, s, Fail)
    ensures Inv(cfg, Raised(s))
  {
    hide SharedOk, Flatten, InSequence, Quiet;
  }

  // ----- No deadlock, termination -----

  /** A worker that has not returned can go on when there is something for it. */
  lemma SomeWorkerGoesOn(cfg: Config, s: State) returns (step: Step)
    requires Inv(cfg, s) && |s.shared.workers| == cfg.concurrency
    requires s.shared.queue != [] || exists w | w in s.shared.workers :: w.Busy?
    requires s.shared.stops <= cfg.concurrency
    ensures Enabled(cfg, s, step) && !step.Advance?
  {
    hide ProducerOk, PartsOk, Tally;
    var sh := s.shared;
    TallyBounds(sh.workers, IsDone);
    if i :| 0 <= i < |sh.workers| && sh.workers[i].Busy? {
      step := PartFails(i);
    } else {
      assert sh.queue != [];
      var i :| 0 <= i < |sh.workers| && !sh.workers[i].Done?;
      step := Take(i);
    }
  }

  /** Until the call ends, its producer or one of its workers can go on. */
  lemma NoDeadlock(cfg: Config, s: State) returns (step: Step)
    requires Inv(cfg, s) && !Ended(s)
    ensures Enabled(cfg, s, step)
  {
    var sh := s.shared;
    if Enabled(cfg, s, Advance) {
      step := Advance;
    } else if s.producer.Join? && sh.queue == [] && forall w | w in sh.workers :: !w.Busy? {
      TallyBounds(sh.workers, IsDone);
      TallyBounds(sh.workers, IsBusy);
      assert false;
    } else {
      step := SomeWorkerGoesOn(cfg, s);
    }
  }

  function Rank(cfg: Config, s: State): int {
    var stops := 3 * cfg.concurrency;
    match s.producer
    case Create => 10 + stops
    case Open => 9 + stops
    case Top => 8 + stops
    case Read => 7 + stops
    case Offer(rest) => 9 + stops + 5 * |rest|
    case Blocked(rest) => 8 + stops + 5 * |rest|
    case Close(_) => 6 + stops
    case Stopping(_) => 5 + stops - 3 * s.shared.stops
    case Join(_) => 4
    case Settle => 3
    case Complete(_) => 2
    case Abort => 1
    case Completed(_) => 0
    case Failed(_) => 0
  }

  /** What is still to do; every step makes it smaller. */
  function ToDo(cfg: Config, s: State): int {
    Rank(cfg, s) + 8 * |s.stream| + 2 * |s.shared.queue| + Tally(s.shared.workers, IsBusy)
  }

  lemma ToDoIsNatural(cfg: Config, s: State)
    requires Inv(cfg, s)
    ensures 0 <= ToDo(cfg, s)
  {
    hide SharedOk, Flatten, Tally, InSequence, Quiet, AllRead;
  }

  lemma ReadMakesProgress(cfg: Config, s: State)
    requires cfg.Valid() && s.producer.Read?
    ensures ToDo(cfg, Advanced(cfg, s)) < ToDo(cfg, s)
  {
    hide Tally, ReadBatch;
    ReadBatchSplits(s.stream, cfg.chunkSize, cfg.batchSize);
  }

  lemma PutMakesProgress(cfg: Config, s: State)
    requires cfg.Valid() && s.producer.Blocked? && s.producer.rest != [] && Enabled(cfg, s, Advance)
    ensures ToDo(cfg, Advanced(cfg, s)) < ToDo(cfg, s)
  {
    hide Tally;
  }

  lemma AdvanceMakesProgress(cfg: Config, s: State)
    requires Inv(cfg, s) && Enabled(cfg, s, Advance)
    ensures ToDo(cfg, Advanced(cfg, s)) < ToDo(cfg, s)
  {
    hide SharedOk, Flatten, Tally, Sorted, InSequence, Quiet, AllRead, AllFit, Whole, LeftBy, ReadBatch;
    match s.producer
    case Read => ReadMakesProgress(cfg, s);
    case Open => TallyBounds(Advanced(cfg, s).shared.workers, IsBusy);
    case Blocked(_) => PutMakesProgress(cfg, s);
    case _ =>
  }

  lemma TakeMakesProgress(cfg: Config, s: State, i: nat)
    requires cfg.Valid() && Enabled(cfg, s, Take(i))
    ensures ToDo(cfg, Apply(cfg, s, Take(i))) < ToDo(cfg, s)
  {
    hide Tally;
    var ws := s.shared.workers;
    TallyUpdate(ws, i, Apply(cfg, s, Take(i)).shared.workers[i], IsBusy);
    assert ws[i := ws[i]] == ws;
  }

  lemma FinishMakesProgress(cfg: Config, s: State, i: nat, step: Step)
    requires cfg.Valid() && Enabled(cfg, s, step) && (step.PartReply? || step.PartFails?) && step.worker == i
    ensures ToDo(cfg, Apply(cfg, s, step)) < ToDo(cfg, s)
  {
    hide Tally;
    TallyUpdate(s.shared.workers, i, Idle, IsBusy);
  }

  lemma RaiseMakesProgress(cfg: Config, s: State)
    requires cfg.Valid() && Enabled(cfg, s, Fail)
    ensures ToDo(cfg, Raised(s)) < ToDo(cfg, s)
  {
    hide Tally;
  }

  lemma StepMakesProgress(cfg: Config, s: State, step: Step)
    requires Inv(cfg, s) && Enabled(cfg, s, step)
    ensures 0 <= ToDo(cfg, Apply(cfg, s, step)) < ToDo(cfg, s)
  {
    StepKeepsInv(cfg, s, step);
    hide Inv, ToDo;
    ToDoIsNatural(cfg, Apply(cfg, s, step));
    match step
    case Advance => AdvanceMakesProgress(cfg, s);
    case Fail => RaiseMakesProgress(cfg, s);
    case Take(i) => TakeMakesProgress(cfg, s, i);
    case PartReply(i, etag) => FinishMakesProgress(cfg, s, i, step);
    case PartFails(i) => FinishMakesProgress(cfg, s, i, step);
  }

  // ----- Every part but the last is full -----

  function Pending(producer: Producer): seq<Bytes> {
    if producer.Offer? || producer.Blocked? then producer.rest else []
  }

  /** Every chunk read has the chunk size, but for the last at the end of the file. */
  ghost predicate AllFull(cfg: Config, chunks: seq<Bytes>, left: Bytes) {
    forall k | 0 <= k < |chunks| && (k < |chunks| - 1 || left != []) :: |chunks[k]| == cfg.chunkSize
  }

  ghost predicate ChunksFull(cfg: Config, s: State) {
    && AllFull(cfg, s.shared.sent + Pending(s.producer), s.stream)
    && (s.producer.Complete? || s.producer.Completed? ==> Bodies(s.producer.parts) == s.shared.sent)
  }

  lemma FewerAreFull(cfg: Config, sent: seq<Bytes>, rest: seq<Bytes>, left: Bytes)
    requires AllFull(cfg, sent + rest, left)
    ensures AllFull(cfg, sent, left)
  {
    forall k | 0 <= k < |sent| && (k < |sent| - 1 || left != []) ensures |sent[k]| == cfg.chunkSize {
      assert (sent + rest)[k] == sent[k];
    }
  }

  lemma ReadKeepsFull(cfg: Config, s: State)
    requires cfg.Valid() && s.producer.Read? && ChunksFull(cfg, s)
    ensures ChunksFull(cfg, Advanced(cfg, s))
  {
    hide ReadBatch;
    var sent := s.shared.sent;
    assert sent + [] == sent;
    ReadBatchIsFull(s.stream, cfg.chunkSize, cfg.batchSize);
    ReadBatchSplits(s.stream, cfg.chunkSize, cfg.batchSize);
    hide Flatten;
  }

  lemma PutKeepsFull(cfg: Config, s: State)
    requires cfg.Valid() && s.producer.Blocked? && Enabled(cfg, s, Advance) && ChunksFull(cfg, s)
    ensures ChunksFull(cfg, Advanced(cfg, s))
  {
    var rest, sent := s.producer.rest, s.shared.sent;
    if rest != [] {
      assert sent + [rest[0]] + rest[1..] == sent + rest;
      assert |rest| == 1 ==> sent + [rest[0]] + [] == sent + rest;
    }
  }

  lemma SettleKeepsFull(cfg: Config, s: State)
    requires Inv(cfg, s) && s.producer.Settle? && ChunksFull(cfg, s)
    ensures ChunksFull(cfg, Advanced(cfg, s))
  {
    hide Sorted, Tally, Distinct, AllFull;
    var sh := s.shared;
    if !sh.broken {
      CountUploaded(cfg, sh);
      UploadedInSequence(sh);
      hide SharedOk;
      assert Bodies(Sorted(sh.parts)) == sh.sent;
    }
  }

  lemma StepKeepsFull(cfg: Config, s: State, step: Step)
    requires Inv(cfg, s) && Enabled(cfg, s, step) && ChunksFull(cfg, s)
    ensures ChunksFull(cfg, Apply(cfg, s, step))
  {
    hide SharedOk, ProducerOk, ReadBatch, Sorted, AllFull;
    FewerAreFull(cfg, s.shared.sent, Pending(s.producer), s.stream);
    assert s.shared.sent + [] == s.shared.sent;
    if step.Advance? && s.producer.Read? {
      ReadKeepsFull(cfg, s);
    } else if step.Advance? && s.producer.Blocked? {
      PutKeepsFull(cfg, s);
    } else if step.Advance? && s.producer.Settle? {
      SettleKeepsFull(cfg, s);
    }
  }

  // ----- Runs -----

  ghost predicate IsRun(cfg: Config, steps: seq<Step>, states: seq<State>) {
    && cfg.Valid() && |states| == |steps| + 1 && states[0] == Init(cfg)
    && forall k | 0 <= k < |steps| :: Enabled(cfg, states[k], steps[k]) && states[k + 1] == Apply(cfg, states[k], steps[k])
  }

  /** One of the first `k` steps is a failure of the store or of the file. */
  ghost predicate SomethingFailed(steps: seq<Step>, k: nat) {
    exists j :: 0 <= j < k && j < |steps| && Failing(steps[j])
  }

  /** One of the first `k` steps is a failure to close the archive. */
  ghost predicate CloseFailed(steps: seq<Step>, states: seq<State>, k: nat) {
    exists j :: 0 <= j < k && j < |steps| && j < |states| && steps[j].Fail? && states[j].producer.Close?
  }

  lemma {:induction false} RunKeepsInv(cfg: Config, steps: seq<Step>, states: seq<State>, k: nat)
    requires IsRun(cfg, steps, states) && k < |states|
    ensures Inv(cfg, states[k])
    ensures states[k].faults <==> SomethingFailed(steps, k)
    ensures k + ToDo(cfg, states[k]) <= 10 + 3 * cfg.concurrency + 8 * |cfg.file| && 0 <= ToDo(cfg, states[k])
    decreases k
  {
    hide Inv, ToDo, Enabled, Apply, Init;
    if k == 0 {
      InitInv(cfg);
      InitToDo(cfg);
    } else {
      RunKeepsInv(cfg, steps, states, k - 1);
      var s, step := states[k - 1], steps[k - 1];
      assert Enabled(cfg, s, step) && states[k - 1 + 1] == Apply(cfg, s, step);
      StepKeepsInv(cfg, s, step);
      StepMakesProgress(cfg, s, step);
      FaultsGrow(cfg, s, step);
    }
  }

  lemma InitToDo(cfg: Config)
    requires cfg.Valid()
    ensures 0 <= ToDo(cfg, Init(cfg)) <= 10 + 3 * cfg.concurrency + 8 * |cfg.file|
    ensures !Init(cfg).faults
  {
  }

  lemma FaultsGrow(cfg: Config, s: State, step: Step)
    requires cfg.Valid() && Enabled(cfg, s, step)
    ensures Apply(cfg, s, step).faults <==> s.faults || Failing(step)
  {
  }

  /** An abort is tried when the call fails, unless the upload was never started. */
  lemma {:induction false} AbortIsTried(cfg: Config, steps: seq<Step>, states: seq<State>, k: nat)
    requires IsRun(cfg, steps, states) && 0 < k < |states|
    ensures !states[k].producer.Create?
    ensures states[k].producer == Failed(false) <==> steps[0] == Fail
    decreases k
  {
    hide Flatten, Sorted, ReadBatch;
    assert states[k - 1 + 1] == Apply(cfg, states[k - 1], steps[k - 1]);
    if k > 1 {
      AbortIsTried(cfg, steps, states, k - 1);
    }
  }

  /** The call is failing and no worker has been told to return. */
  predicate Stranded(cfg: Config, s: State) {
    (s.producer.Abort? || s.producer == Failed(true)) && |s.shared.workers| == cfg.concurrency && s.shared.stops == 0
  }

  ghost predicate Released(cfg: Config, s: State) {
    s.producer.Abort? || s.producer.Failed? ==> Quiet(cfg, s.shared) || s.shared.workers == []
  }

  lemma StepLeavesWorkers(cfg: Config, s: State, step: Step)
    requires Inv(cfg, s) && Enabled(cfg, s, step)
    ensures step.Fail? && s.producer.Close? ==> Stranded(cfg, Apply(cfg, s, step))
    ensures Stranded(cfg, s) ==> Stranded(cfg, Apply(cfg, s, step)) && !(step.Fail? && s.producer.Close?)
    ensures Released(cfg, s) && !(step.Fail? && s.producer.Close?) ==> Released(cfg, Apply(cfg, s, step))
  {
    hide PartsOk, QueueOk, Tally, AllFit, Flatten, Sorted, ReadBatch, InSequence, AllRead, Whole;
    assert Quiet(cfg, s.shared) ==> forall i | 0 <= i < |s.shared.workers| :: s.shared.workers[i].Done?;
  }

  lemma CloseFailedGrows(steps: seq<Step>, states: seq<State>, k: nat)
    requires 0 < k <= |steps| && |states| == |steps| + 1
    ensures CloseFailed(steps, states, k) <==>
            CloseFailed(steps, states, k - 1) || (steps[k - 1].Fail? && states[k - 1].producer.Close?)
  {
  }

  /** The workers are stranded exactly when closing the archive has failed; otherwise they are let go. */
  lemma {:induction false} WorkersLeft(cfg: Config, steps: seq<Step>, states: seq<State>, k: nat)
    requires IsRun(cfg, steps, states) && k < |states|
    ensures if CloseFailed(steps, states, k) then Stranded(cfg, states[k]) else Released(cfg, states[k])
    decreases k
  {
    if k > 0 {
      WorkersLeft(cfg, steps, states, k - 1);
      RunKeepsInv(cfg, steps, states, k - 1);
      assert states[k - 1 + 1] == Apply(cfg, states[k - 1], steps[k - 1]);
      StepLeavesWorkers(cfg, states[k - 1], steps[k - 1]);
      CloseFailedGrows(steps, states, k);
      hide Stranded, Released, Inv, Apply, Enabled, CloseFailed;
    }
  }

  lemma StrandedAreIdle(cfg: Config, s: State)
    requires Inv(cfg, s) && Stranded(cfg, s)
    ensures exists w | w in s.shared.workers :: !w.Done?
  {
    hide ProducerOk, PartsOk, Tally;
    TallyBounds(s.shared.workers, IsDone);
  }

  lemma WholeIsNotEmpty(cfg: Config, parts: seq<Part>)
    requires Whole(cfg, parts)
    ensures cfg.file != []
  {
    assert Fits(cfg.chunkSize, Bodies(parts)[|parts| - 1]);
  }

  /**
   * Whatever the interleaving and whatever fails: a run has a bounded number of steps and can go on
   * until the call ends. It ends in a completed upload exactly when nothing failed and the file is not
   * empty; the upload is then completed with parts numbered from 1 whose bodies are the file. It ends
   * in an abort being tried in every other case but a failure to start the upload. Its workers have
   * returned or were never started, unless closing the archive failed: then some have not.
   */
  lemma RunsEndRight(cfg: Config, steps: seq<Step>, states: seq<State>)
    requires IsRun(cfg, steps, states) && |steps| > 0
    ensures |steps| <= 10 + 3 * cfg.concurrency + 8 * |cfg.file|
    ensures var last := states[|steps|];
            if !Ended(last) then exists step :: Enabled(cfg, last, step)
            else
              && (last.producer.Completed? <==> !SomethingFailed(steps, |steps|) && cfg.file != [])
              && (last.producer.Completed? ==> Whole(cfg, last.producer.parts))
              && (last.producer == Failed(false) <==> steps[0] == Fail)
              && ((forall w | w in last.shared.workers :: w.Done?) <==> !CloseFailed(steps, states, |steps|))
  {
    var last := states[|steps|];
    RunKeepsInv(cfg, steps, states, |steps|);
    if !Ended(last) {
      var step := NoDeadlock(cfg, last);
    } else {
      AbortIsTried(cfg, steps, states, |steps|);
      WorkersLeft(cfg, steps, states, |steps|);
      if Stranded(cfg, last) {
        StrandedAreIdle(cfg, last);
      }
      if last.producer.Completed? {
        WholeIsNotEmpty(cfg, last.producer.parts);
      }
    }
  }

  /**
   * The store is never asked to complete an upload after a failure, nor with other than the whole file,
   * and of its parts only the last may be shorter than the chunk size.
   */
  lemma CompletesOnlyWhole(cfg: Config, steps: seq<Step>, states: seq<State>, k: nat)
    requires IsRun(cfg, steps, states) && k < |states|
    requires states[k].producer.Complete? || states[k].producer.Completed?
    ensures !SomethingFailed(steps, k) && Whole(cfg, states[k].producer.parts)
    ensures forall i | 0 <= i < |states[k].producer.parts| - 1 :: |states[k].producer.parts[i].body| == cfg.chunkSize
  {
    hide SharedOk, Whole, Quiet, ChunksFull, IsRun, SomethingFailed, ToDo;
    RunKeepsInv(cfg, steps, states, k);
    RunKeepsFull(cfg, steps, states, k);
    PartsAreFull(cfg, states[k]);
  }

  lemma PartsAreFull(cfg: Config, s: State)
    requires ChunksFull(cfg, s) && (s.producer.Complete? || s.producer.Completed?)
    ensures forall i | 0 <= i < |s.producer.parts| - 1 :: |s.producer.parts[i].body| == cfg.chunkSize
  {
    forall i | 0 <= i < |s.producer.parts| - 1 ensures |s.producer.parts[i].body| == cfg.chunkSize {
      assert Bodies(s.producer.parts)[i] == s.shared.sent[i] == (s.shared.sent + Pending(s.producer))[i];
    }
  }

  lemma {:induction false} RunKeepsFull(cfg: Config, steps: seq<Step>, states: seq<State>, k: nat)
    requires IsRun(cfg, steps, states) && k < |states|
    ensures ChunksFull(cfg, states[k])
    decreases k
  {
    if k > 0 {
      RunKeepsFull(cfg, steps, states, k - 1);
      RunKeepsInv(cfg, steps, states, k - 1);
      assert states[k - 1 + 1] == Apply(cfg, states[k - 1], steps[k - 1]);
      StepKeepsFull(cfg, states[k - 1], steps[k - 1]);
      hide ChunksFull, Inv, Apply;
    }
  }

  // ----- After a part has failed -----

  /** The part that the producer may still put when it comes back from waiting on the queue. */
  function Room(producer: Producer): nat {
    if producer.Blocked? then 1 else 0
  }

  /**
   * From the one state to the other no upload has begun, no read of the archive has begun, and nothing has
   * been put but for what the producer was putting.
   */
  ghost predicate Winding(s: State, t: State) {
    && t.shared.broken && |t.shared.workers| == |s.shared.workers|
    && |t.shared.sent| + Room(t.producer) <= |s.shared.sent| + Room(s.producer)
    && (!s.producer.Read? ==> !t.producer.Read? && t.stream == s.stream)
    && forall i | 0 <= i < |t.shared.workers| && t.shared.workers[i].Busy? :: t.shared.workers[i] == s.shared.workers[i]
  }

  lemma StepWindsDown(cfg: Config, s: State, step: Step)
    requires Inv(cfg, s) && s.shared.broken && Enabled(cfg, s, step)
    ensures Winding(s, Apply(cfg, s, step))
  {
    hide SharedOk, ReadBatch, Sorted, Flatten, Tagged, InSequence, Whole;
  }

  /**
   * Once a part has failed no further upload begins, the archive is not read again, and the producer puts
   * at most the one chunk it is waiting to put.
   */
  lemma {:induction false} FailureStopsUploads(cfg: Config, steps: seq<Step>, states: seq<State>, p: nat, q: nat)
    requires IsRun(cfg, steps, states) && p <= q < |states| && states[p].shared.broken
    ensures Winding(states[p], states[q])
    decreases q
  {
    hide Inv, Apply, Enabled, Init;
    if p < q {
      FailureStopsUploads(cfg, steps, states, p, q - 1);
      RunKeepsInv(cfg, steps, states, q - 1);
      assert Enabled(cfg, states[q - 1], steps[q - 1]) && states[q - 1 + 1] == Apply(cfg, states[q - 1], steps[q - 1]);
      StepWindsDown(cfg, states[q - 1], steps[q - 1]);
    }
  }

  // ----- A worker left waiting -----

  /** The upload of an empty archive with one worker, which has not been sent anything. */
  function Waiting(producer: Producer, faults: bool): State {
    State(producer, [], Shared([], 0, [], 0, [Idle], [], false), faults)
  }

  lemma WaitingSteps(cfg: Config)
    requires cfg.Valid() && cfg.file == [] && cfg.concurrency == 1
    ensures Enabled(cfg, Init(cfg), Advance) && Apply(cfg, Init(cfg), Advance) == Init(cfg).(producer := Open)
    ensures var s := Init(cfg).(producer := Open); Enabled(cfg, s, Advance) && Apply(cfg, s, Advance) == Waiting(Top, false)
    ensures var s := Waiting(Top, false); Enabled(cfg, s, Advance) && Apply(cfg, s, Advance) == Waiting(Read, false)
    ensures var s := Waiting(Read, false); Enabled(cfg, s, Advance) && Apply(cfg, s, Advance) == Waiting(Close(false), false)
    ensures var s := Waiting(Close(false), false); Enabled(cfg, s, Fail) && Apply(cfg, s, Fail) == Waiting(Abort, true)
    ensures var s := Waiting(Abort, true); Enabled(cfg, s, Advance) && Apply(cfg, s, Advance) == Waiting(Failed(true), true)
  {
    assert seq(1, _ => Idle) == [Idle];
  }

  /** A run whose close fails: the call ends with its worker still waiting on the queue. */
  lemma FailedCloseLeavesWorker(cfg: Config) returns (steps: seq<Step>, states: seq<State>)
    requires cfg.Valid() && cfg.file == [] && cfg.concurrency == 1
    ensures IsRun(cfg, steps, states) && |states| == 7 && steps[4].Fail? && states[4].producer.Close?
    ensures states[6].producer == Failed(true) && states[6].shared.workers == [Idle]
    ensures forall step :: !Enabled(cfg, states[6], step)
  {
    hide Apply, Init;
    WaitingSteps(cfg);
    steps := [Advance, Advance, Advance, Advance, Fail, Advance];
    states := [Init(cfg), Init(cfg).(producer := Open), Waiting(Top, false), Waiting(Read, false),
               Waiting(Close(false), false), Waiting(Abort, true), Waiting(Failed(true), true)];
  }
}
