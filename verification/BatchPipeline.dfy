/**
 * A producer, a bounded queue and workers that stop on sentinels, as a step system: the code between
 * two awaits is one step. It is the runner of `backend/app/scan.py`, and the stages of its verifier.
 */
module BatchPipeline {
  import opened Basics

  datatype Item = Batch(index: nat) | Stop

  /** A worker in `queue.get()`, in `process_batch`, returned, or dead of an exception. */
  datatype Worker = Idle | Busy(batch: nat) | Done | Dead(batch: nat)

  datatype Outcome<R, E> = Running | Returned(results: seq<R>) | Raised(error: E)

  /** One call: the batches, what processing each gives, and the sizes of the pool and of the queue. */
  datatype Job<!B, !R, !E> = Job(batches: seq<B>, process: B -> Result<R, E>, workers: nat, capacity: nat) {
    predicate Valid() {
      workers > 0 && capacity > 0
    }

    /** What the producer puts, in order: every batch, then one sentinel for each worker. */
    function ItemAt(k: nat): Item {
      if k < |batches| then Batch(k) else Stop
    }

    function Total(): nat {
      |batches| + workers
    }
  }

  /** `started` and `stops` record how often each batch was begun and how many sentinels each worker got. */
  datatype State<R, E> = State(
    sent: nat, queue: seq<Item>, workers: seq<Worker>, results: seq<Option<R>>, outcome: Outcome<R, E>,
    started: seq<nat>, stops: seq<nat>)

  function Init<B, R, E>(job: Job<B, R, E>): State<R, E> {
    State(0, [], seq(job.workers, _ => Idle), seq(|job.batches|, _ => None), Running,
          seq(|job.batches|, _ => 0), seq(job.workers, _ => 0))
  }

  // ----- Steps -----

  datatype Step = Put | Take(worker: nat) | Finish(worker: nat) | Return | Raise(worker: nat)

  predicate Enabled<B, R, E>(job: Job<B, R, E>, s: State<R, E>, step: Step) {
    && s.outcome.Running?
    && match step
       case Put => s.sent < job.Total() && |s.queue| < job.capacity
       case Take(i) => i < |s.workers| && s.workers[i].Idle? && s.queue != []
       case Finish(i) =>
         i < |s.workers| && s.workers[i].Busy? && s.workers[i].batch < |job.batches| && s.workers[i].batch < |s.results|
       case Return => s.sent == job.Total() && forall w | w in s.workers :: w.Done?
       case Raise(i) => i < |s.workers| && s.workers[i].Dead? && s.workers[i].batch < |job.batches|
                        && job.process(job.batches[s.workers[i].batch]).Err?
  }

  function Bump(counts: seq<nat>, i: nat): seq<nat> {
    if i < |counts| then counts[i := counts[i] + 1] else counts
  }

  function Apply<B, R, E>(job: Job<B, R, E>, s: State<R, E>, step: Step): State<R, E>
    requires Enabled(job, s, step)
  {
    match step
    case Put => s.(sent := s.sent + 1, queue := s.queue + [job.ItemAt(s.sent)])
    case Take(i) =>
      (match s.queue[0]
       case Stop => s.(queue := s.queue[1..], workers := s.workers[i := Done], stops := Bump(s.stops, i))
       case Batch(b) => s.(queue := s.queue[1..], workers := s.workers[i := Busy(b)], started := Bump(s.started, b)))
    case Finish(i) =>
      var b := s.workers[i].batch;
      (match job.process(job.batches[b])
       case Ok(r) => s.(workers := s.workers[i := Idle], results := s.results[b := Some(r)])
       case Err(_) => s.(workers := s.workers[i := Dead(b)]))
    case Return => s.(outcome := Returned(Values(s.results)))
    case Raise(i) => s.(outcome := Raised(job.process(job.batches[s.workers[i].batch]).error))
  }

  /** The results list as the caller gets it. */
  function Values<R>(results: seq<Option<R>>): seq<R> {
    if results == [] then []
    else if results[0].Some? then [results[0].value] + Values(results[1..])
    else Values(results[1..])
  }

  // ----- The invariant -----

  const IsDone: Worker -> nat := (w: Worker) => if w.Done? then 1 else 0
  const IsBusy: Worker -> nat := (w: Worker) => if w.Busy? then 1 else 0

  function Taken<R, E>(s: State<R, E>): int {
    s.sent - |s.queue|
  }

  predicate Holds(w: Worker, b: nat) {
    (w.Busy? || w.Dead?) && w.batch == b
  }

  /** The queue is the middle of what the producer puts. */
  ghost predicate QueueOk<B, R, E>(job: Job<B, R, E>, s: State<R, E>) {
    && s.sent <= job.Total() && |s.queue| <= job.capacity && |s.queue| <= s.sent
    && forall k | 0 <= k < |s.queue| :: s.queue[k] == job.ItemAt(Taken(s) + k)
  }

  /** Each batch taken is with exactly one worker, or its result is in its place. */
  ghost predicate BatchOk<B, R, E>(job: Job<B, R, E>, s: State<R, E>, b: nat)
    requires b < |job.batches| && |s.results| == |job.batches| == |s.started|
  {
    && s.started[b] == (if b < Taken(s) then 1 else 0)
    && (s.results[b].Some? ==> b < Taken(s) && job.process(job.batches[b]) == Ok(s.results[b].value))
    && (b < Taken(s) && s.results[b].None? ==> exists i :: 0 <= i < |s.workers| && Holds(s.workers[i], b))
  }

  ghost predicate WorkerOk<B, R, E>(job: Job<B, R, E>, s: State<R, E>, i: nat)
    requires i < |s.workers| && |s.results| == |job.batches| && |s.stops| == |s.workers|
  {
    var w := s.workers[i];
    && s.stops[i] == (if w.Done? then 1 else 0)
    && (w.Done? ==> Taken(s) > |job.batches|)
    && (w.Busy? || w.Dead? ==> w.batch < |job.batches| && w.batch < Taken(s) && s.results[w.batch].None?)
    && (w.Dead? ==> job.process(job.batches[w.batch]).Err?)
  }

  ghost predicate OutcomeOk<B, R, E>(job: Job<B, R, E>, s: State<R, E>) {
    match s.outcome
    case Running => true
    case Returned(results) => Taken(s) == job.Total() && results == Values(s.results)
                              && (forall w | w in s.workers :: w.Done?)
    case Raised(error) => exists b | b in job.batches :: job.process(b) == Err(error)
  }

  ghost predicate Inv<B, R, E>(job: Job<B, R, E>, s: State<R, E>) {
    && job.Valid()
    && |s.workers| == job.workers == |s.stops| && |s.results| == |job.batches| == |s.started|
    && QueueOk(job, s)
    && (forall b | 0 <= b < |job.batches| :: BatchOk(job, s, b))
    && (forall i | 0 <= i < |s.workers| :: WorkerOk(job, s, i))
    && (forall i, j, b: nat | 0 <= i < |s.workers| && 0 <= j < |s.workers|
          && Holds(s.workers[i], b) && Holds(s.workers[j], b) :: i == j)
    && Tally(s.workers, IsDone) == (if Taken(s) > |job.batches| then Taken(s) - |job.batches| else 0)
    && OutcomeOk(job, s)
  }

  lemma InitInv<B, R, E>(job: Job<B, R, E>)
    requires job.Valid()
    ensures Inv(job, Init(job))
  {
    TallyBounds(Init(job).workers, IsDone);
  }

  lemma PutKeepsInv<B, R, E>(job: Job<B, R, E>, s: State<R, E>)
    requires Inv(job, s) && Enabled(job, s, Put)
    ensures Inv(job, Apply(job, s, Put))
  {
    hide Tally;
    var t := Apply(job, s, Put);
    assert Taken(t) == Taken(s);
    forall b: nat | b < |job.batches| ensures BatchOk(job, t, b) {
      assert BatchOk(job, s, b);
    }
    forall i: nat | i < |t.workers| ensures WorkerOk(job, t, i) {
      assert WorkerOk(job, s, i);
    }
  }

  lemma TakeStopKeepsInv<B, R, E>(job: Job<B, R, E>, s: State<R, E>, i: nat)
    requires Inv(job, s) && Enabled(job, s, Take(i)) && s.queue[0].Stop?
    ensures Inv(job, Apply(job, s, Take(i)))
  {
    hide Tally;
    var t := Apply(job, s, Take(i));
    assert Taken(t) == Taken(s) + 1;
    assert s.queue[0] == job.ItemAt(Taken(s) + 0);
    TallyUpdate(s.workers, i, Done, IsDone);
    forall k | 0 <= k < |t.queue| ensures t.queue[k] == job.ItemAt(Taken(t) + k) {
      assert s.queue[k + 1] == job.ItemAt(Taken(s) + (k + 1));
    }
    forall b: nat | b < |job.batches| ensures BatchOk(job, t, b) {
      assert BatchOk(job, s, b);
      if s.results[b].None? {
        var j :| 0 <= j < |s.workers| && Holds(s.workers[j], b);
        assert Holds(t.workers[j], b);
      }
    }
    forall j: nat | j < |t.workers| ensures WorkerOk(job, t, j) {
      assert WorkerOk(job, s, j);
    }
  }

  lemma TakeBatchKeepsInv<B, R, E>(job: Job<B, R, E>, s: State<R, E>, i: nat)
    requires Inv(job, s) && Enabled(job, s, Take(i)) && s.queue[0].Batch?
    ensures Inv(job, Apply(job, s, Take(i)))
  {
    hide Tally;
    var t := Apply(job, s, Take(i));
    var n := Taken(s);
    assert Taken(t) == n + 1;
    assert s.queue[0] == job.ItemAt(n + 0);
    TallyUpdate(s.workers, i, Busy(n), IsDone);
    forall k | 0 <= k < |t.queue| ensures t.queue[k] == job.ItemAt(Taken(t) + k) {
      assert s.queue[k + 1] == job.ItemAt(n + (k + 1));
    }
    forall b: nat | b < |job.batches| ensures BatchOk(job, t, b) {
      assert BatchOk(job, s, b);
      if b == n {
        assert Holds(t.workers[i], b);
      } else if b < n && s.results[b].None? {
        var j :| 0 <= j < |s.workers| && Holds(s.workers[j], b);
        assert Holds(t.workers[j], b);
      }
    }
    assert BatchOk(job, s, n);
    forall j: nat | j < |t.workers| ensures WorkerOk(job, t, j) {
      assert WorkerOk(job, s, j);
    }
    forall j, k, b: nat | 0 <= j < |t.workers| && 0 <= k < |t.workers|
      && Holds(t.workers[j], b) && Holds(t.workers[k], b)
      ensures j == k
    {
      assert WorkerOk(job, s, j) && WorkerOk(job, s, k);
    }
  }

  lemma FinishKeepsInv<B, R, E>(job: Job<B, R, E>, s: State<R, E>, i: nat)
    requires Inv(job, s) && Enabled(job, s, Finish(i))
    ensures Inv(job, Apply(job, s, Finish(i)))
  {
    hide Tally;
    var t := Apply(job, s, Finish(i));
    var done := s.workers[i].batch;
    assert WorkerOk(job, s, i) && Holds(s.workers[i], done);
    TallyUpdate(s.workers, i, t.workers[i], IsDone);
    forall b: nat | b < |job.batches| ensures BatchOk(job, t, b) {
      assert BatchOk(job, s, b);
      if b < Taken(s) && t.results[b].None? {
        var j :| 0 <= j < |s.workers| && Holds(s.workers[j], b);
        assert Holds(t.workers[j], b);
      }
    }
    forall j: nat | j < |t.workers| ensures WorkerOk(job, t, j) {
      assert WorkerOk(job, s, j);
    }
    forall j, k, b: nat | 0 <= j < |t.workers| && 0 <= k < |t.workers|
      && Holds(t.workers[j], b) && Holds(t.workers[k], b)
      ensures j == k
    {
      assert Holds(s.workers[j], b) && Holds(s.workers[k], b);
    }
  }

  lemma EndKeepsInv<B, R, E>(job: Job<B, R, E>, s: State<R, E>, step: Step)
    requires Inv(job, s) && Enabled(job, s, step) && (step.Return? || step.Raise?)
    ensures Inv(job, Apply(job, s, step))
  {
    hide Tally;
    var t := Apply(job, s, step);
    assert Taken(t) == Taken(s);
    forall b: nat | b < |job.batches| ensures BatchOk(job, t, b) {
      assert BatchOk(job, s, b);
    }
    forall i: nat | i < |t.workers| ensures WorkerOk(job, t, i) {
      assert WorkerOk(job, s, i);
    }
    if step.Return? {
      TallyBounds(s.workers, IsDone);
    }
  }

  /** Every step keeps the invariant. */
  lemma StepKeepsInv<B, R, E>(job: Job<B, R, E>, s: State<R, E>, step: Step)
    requires Inv(job, s) && Enabled(job, s, step)
    ensures Inv(job, Apply(job, s, step))
  {
    match step
    case Put => PutKeepsInv(job, s);
    case Take(i) =>
      if s.queue[0].Stop? {
        TakeStopKeepsInv(job, s, i);
      } else {
        TakeBatchKeepsInv(job, s, i);
      }
    case Finish(i) => FinishKeepsInv(job, s, i);
    case Return => EndKeepsInv(job, s, step);
    case Raise(_) => EndKeepsInv(job, s, step);
  }

  // ----- No deadlock, termination -----

  /** While the call has not ended some step is enabled. */
  lemma NoDeadlock<B, R, E>(job: Job<B, R, E>, s: State<R, E>) returns (step: Step)
    requires Inv(job, s) && s.outcome.Running?
    ensures Enabled(job, s, step)
  {
    hide Tally;
    TallyBounds(s.workers, IsDone);
    if i :| 0 <= i < |s.workers| && s.workers[i].Dead? {
      assert WorkerOk(job, s, i);
      step := Raise(i);
    } else if i :| 0 <= i < |s.workers| && s.workers[i].Busy? {
      assert WorkerOk(job, s, i);
      step := Finish(i);
    } else if s.queue == [] && s.sent < job.Total() {
      step := Put;
    } else if i :| 0 <= i < |s.workers| && s.workers[i].Idle? {
      step := Take(i);
    } else {
      step := Return;
    }
  }

  /** What is still to do; every step makes it smaller. */
  function ToDo<B, R, E>(job: Job<B, R, E>, s: State<R, E>): int {
    3 * (job.Total() - s.sent) + 2 * |s.queue| + Tally(s.workers, IsBusy) + (if s.outcome.Running? then 1 else 0)
  }

  lemma StepMakesProgress<B, R, E>(job: Job<B, R, E>, s: State<R, E>, step: Step)
    requires Inv(job, s) && Enabled(job, s, step)
    ensures 0 <= ToDo(job, Apply(job, s, step)) < ToDo(job, s)
  {
    StepKeepsInv(job, s, step);
    hide Tally;
    var t := Apply(job, s, step);
    if step.Take? || step.Finish? {
      TallyUpdate(s.workers, step.worker, t.workers[step.worker], IsBusy);
    }
  }

  // ----- Runs -----

  ghost predicate IsRun<B, R, E>(job: Job<B, R, E>, steps: seq<Step>, states: seq<State<R, E>>) {
    && |states| == |steps| + 1 && states[0] == Init(job)
    && forall k | 0 <= k < |steps| ::
         Enabled(job, states[k], steps[k]) && states[k + 1] == Apply(job, states[k], steps[k])
  }

  /** In every interleaving the invariant holds throughout and the steps left are counted down. */
  lemma {:induction false} RunKeepsInv<B, R, E>(job: Job<B, R, E>, steps: seq<Step>, states: seq<State<R, E>>, k: nat)
    requires job.Valid() && IsRun(job, steps, states) && k < |states|
    ensures Inv(job, states[k])
    ensures k + ToDo(job, states[k]) <= 3 * job.Total() + 1 && 0 <= ToDo(job, states[k])
    decreases k
  {
    if k == 0 {
      InitInv(job);
      TallyBounds(Init(job).workers, IsBusy);
    } else {
      RunKeepsInv(job, steps, states, k - 1);
      assert states[k - 1 + 1] == Apply(job, states[k - 1], steps[k - 1]);
      StepKeepsInv(job, states[k - 1], steps[k - 1]);
      StepMakesProgress(job, states[k - 1], steps[k - 1]);
    }
  }

  /** The sequential map of the batches, if none fails. */
  ghost predicate IsMapped<B, R, E>(job: Job<B, R, E>, results: seq<R>) {
    && |results| == |job.batches|
    && forall b | 0 <= b < |job.batches| :: job.process(job.batches[b]) == Ok(results[b])
  }

  ghost predicate SomeBatchFails<B, R, E>(job: Job<B, R, E>) {
    exists b | b in job.batches :: job.process(b).Err?
  }

  lemma {:induction false} ValuesOfAll<R>(results: seq<Option<R>>)
    requires forall b | 0 <= b < |results| :: results[b].Some?
    ensures |Values(results)| == |results|
    ensures forall b | 0 <= b < |results| :: Values(results)[b] == results[b].value
    decreases |results|
  {
    if results != [] {
      ValuesOfAll(results[1..]);
    }
  }

  /** Every batch was begun once, and every worker got one sentinel. */
  ghost predicate ServedOnce<R, E>(s: State<R, E>) {
    && (forall b | 0 <= b < |s.started| :: s.started[b] == 1)
    && (forall i | 0 <= i < |s.stops| :: s.stops[i] == 1)
  }

  /** What a call that has ended gave back. */
  lemma EndedRight<B, R, E>(job: Job<B, R, E>, s: State<R, E>)
    requires Inv(job, s) && !s.outcome.Running?
    ensures s.outcome.Returned? ==> IsMapped(job, s.outcome.results) && !SomeBatchFails(job) && ServedOnce(s)
    ensures s.outcome.Raised? ==> exists b | b in job.batches :: job.process(b) == Err(s.outcome.error)
  {
    hide Tally;
    if s.outcome.Returned? {
      assert forall i | 0 <= i < |s.workers| :: s.workers[i].Done?;
      forall b | 0 <= b < |job.batches| ensures s.results[b].Some? && s.started[b] == 1 {
        assert BatchOk(job, s, b);
        if s.results[b].None? {
          assert false;
        }
      }
      ValuesOfAll(s.results);
      forall b | 0 <= b < |job.batches| ensures job.process(job.batches[b]) == Ok(s.outcome.results[b]) {
        assert BatchOk(job, s, b);
      }
      forall i | 0 <= i < job.workers ensures s.stops[i] == 1 {
        assert WorkerOk(job, s, i) && s.workers[i] in s.workers;
      }
    }
  }

  /** A run that has come to its end. */
  ghost predicate Ends<B, R(!new), E(!new)>(job: Job<B, R, E>, outcome: Outcome<R, E>) {
    exists steps: seq<Step>, states: seq<State<R, E>> ::
      IsRun(job, steps, states) && states[|states| - 1].outcome == outcome && !outcome.Running?
  }

  /**
   * Whatever the interleaving: no run is longer than three steps for every item the producer puts,
   * plus one; a run can go on until the call ends; and it ends by returning the batches' results in
   * input order when no batch fails, each begun once and each worker stopped by one sentinel, and
   * otherwise by raising the error of a batch that failed.
   */
  lemma RunsEndRight<B, R, E>(job: Job<B, R, E>, steps: seq<Step>, states: seq<State<R, E>>)
    requires job.Valid() && IsRun(job, steps, states)
    ensures |steps| <= 3 * job.Total() + 1
    ensures var last := states[|states| - 1];
            match last.outcome
            case Running => exists step :: Enabled(job, last, step)
            case Returned(results) => IsMapped(job, results) && !SomeBatchFails(job) && ServedOnce(last)
            case Raised(error) => exists b | b in job.batches :: job.process(b) == Err(error)
  {
    var last := states[|states| - 1];
    RunKeepsInv(job, steps, states, |states| - 1);
    if last.outcome.Running? {
      var step := NoDeadlock(job, last);
    } else {
      EndedRight(job, last);
    }
  }

  lemma {:induction false} RunGoesOn<B, R(!new), E(!new)>(job: Job<B, R, E>, steps: seq<Step>, states: seq<State<R, E>>)
    returns (outcome: Outcome<R, E>)
    requires job.Valid() && IsRun(job, steps, states)
    ensures Ends(job, outcome)
    decreases 3 * job.Total() + 1 - |steps|
  {
    var last := states[|states| - 1];
    RunKeepsInv(job, steps, states, |states| - 1);
    if last.outcome.Running? {
      var step := NoDeadlock(job, last);
      var steps', states' := steps + [step], states + [Apply(job, last, step)];
      assert IsRun(job, steps', states');
      RunKeepsInv(job, steps', states', |states|);
      outcome := RunGoesOn(job, steps', states');
    } else {
      outcome := last.outcome;
    }
  }

  /** Some run ends, so what is said of every end is said of something. */
  lemma SomeRunEnds<B, R(!new), E(!new)>(job: Job<B, R, E>) returns (outcome: Outcome<R, E>)
    requires job.Valid()
    ensures Ends(job, outcome)
  {
    outcome := RunGoesOn(job, [], [Init(job)]);
  }

  lemma EndIsRight<B, R(!new), E(!new)>(job: Job<B, R, E>, outcome: Outcome<R, E>)
    requires job.Valid() && Ends(job, outcome)
    ensures outcome.Returned? <==> !SomeBatchFails(job)
    ensures outcome.Returned? ==> IsMapped(job, outcome.results)
    ensures outcome.Raised? ==> exists b | b in job.batches :: job.process(b) == Err(outcome.error)
  {
    var steps: seq<Step>, states: seq<State<R, E>> :| IsRun(job, steps, states) && states[|states| - 1].outcome == outcome;
    RunsEndRight(job, steps, states);
  }

  /** `_process_batches_bounded_async`: a queue as long as the pool is wide, and nothing to do without batches. */
  function RunnerJob<B, R, E>(batches: seq<B>, maxParallel: int, process: B -> Result<R, E>): (job: Job<B, R, E>)
    ensures job.Valid() && job.capacity == job.workers
    ensures job.workers >= maxParallel && (job.workers == maxParallel || job.workers == 1)
  {
    var workers := if maxParallel < 1 then 1 else maxParallel;
    Job(batches, process, workers, workers)
  }

  ghost predicate ProcessBatches<B, R(!new), E(!new)>(
    batches: seq<B>, maxParallel: int, process: B -> Result<R, E>, outcome: Outcome<R, E>)
  {
    if batches == [] then outcome == Returned([]) else Ends(RunnerJob(batches, maxParallel, process), outcome)
  }

  /** The runner agrees with the sequential loop over the batches. */
  lemma RunnerIsSequential<B, R(!new), E(!new)>(
    batches: seq<B>, maxParallel: int, process: B -> Result<R, E>, outcome: Outcome<R, E>)
    requires ProcessBatches(batches, maxParallel, process, outcome)
    ensures var job := RunnerJob(batches, maxParallel, process);
            && (outcome.Returned? <==> !SomeBatchFails(job))
            && (outcome.Returned? ==> IsMapped(job, outcome.results))
            && (outcome.Raised? ==> exists b | b in batches :: process(b) == Err(outcome.error))
  {
    if batches != [] {
      EndIsRight(RunnerJob(batches, maxParallel, process), outcome);
    }
  }
}
