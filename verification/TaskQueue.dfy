/**
 * Submitting tasks and running them: the in-flight set of heavy jobs, the job table with its partial
 * unique index, and any number of submitters and workers. A step is the code between two awaits.
 * Models `submit_run_async`, `submit_scan_with_status_async` and what they await in
 * `backend/app/services/task_queue.py`, and `_set_job_status_async` of `backend/app/task_handlers.py`.
 */
module TaskQueue {
  import opened Basics

  /** `Run` goes to the heavy queue, which is guarded; `Scan` does not. */
  datatype Kind = Run | Scan

  datatype Status = Pending | Running | Closed

  /**
   * How far a worker is with a job. `Touched` is between adding the id to the set and committing
   * `running`, `Removed` between removing it and committing the terminal status.
   */
  datatype Work = Unsent | Sent | Touched | Going | Removed | Ended

  /** `key` stands for the organisation and the idempotency key. */
  datatype Job = Job(key: nat, kind: Kind, status: Status, work: Work)

  datatype Phase =
    | Start
    | Guarding(retried: bool)
    | Creating
    | Clashed
    | NotCreated(existing: nat)
    | Created
    | Marking
    | Freeing(result: Option<nat>)
    | Returned(id: nat)
    | Raised

  datatype Submitter = Submitter(kind: Kind, key: nat, phase: Phase)

  /** The submitter at index `i` uses `i` as its fresh task id. */
  datatype System = System(inflight: set<nat>, jobs: map<nat, Job>, submitters: seq<Submitter>)

  predicate Active(jobs: map<nat, Job>, id: nat, key: nat) {
    id in jobs && jobs[id].key == key && !jobs[id].status.Closed?
  }

  /** What looking for an active job with a key may find. */
  ghost predicate Finds(jobs: map<nat, Job>, key: nat, found: Option<nat>) {
    match found
    case Some(id) => Active(jobs, id, key)
    case None => forall id :: !Active(jobs, id, key)
  }

  // ----- What one await does to the set and to the table -----

  /** The guard's script: refuse when the set is full, otherwise add. */
  function TryAdd(inflight: set<nat>, limit: nat, id: nat): (bool, set<nat>) {
    if |inflight| >= limit then (false, inflight) else (true, inflight + {id})
  }

  function Release(inflight: set<nat>, kind: Kind, id: nat): set<nat> {
    if kind.Run? then inflight - {id} else inflight
  }

  function WithStatus(jobs: map<nat, Job>, id: nat, status: Status, work: Work): map<nat, Job>
    requires id in jobs
  {
    jobs[id := jobs[id].(status := status, work := work)]
  }

  // ----- Steps -----

  datatype Step =
    | Find(i: nat, found: Option<nat>)
    | Guard(i: nat)
    | GuardFails(i: nat)
    | Create(i: nat)
    | CreateFails(i: nat)
    | Look(i: nat, found: Option<nat>)
    | LookAgain(i: nat, found: Option<nat>)
    | Enqueue(i: nat)
    | EnqueueFails(i: nat)
    | Mark(i: nat)
    | MarkFails(i: nat)
    | Free(i: nat)
    | Touch(id: nat)
    | CommitRunning(id: nat)
    | Remove(id: nat)
    | CommitTerminal(id: nat)

  predicate BySubmitter(step: Step) {
    !step.Touch? && !step.CommitRunning? && !step.Remove? && !step.CommitTerminal?
  }

  ghost predicate Enabled(s: System, step: Step) {
    if BySubmitter(step) then
      && step.i < |s.submitters|
      && var sub := s.submitters[step.i];
      (match step
       case Find(_, found) => sub.phase.Start? && Finds(s.jobs, sub.key, found)
       case Guard(_) => sub.phase.Guarding?
       case GuardFails(_) => sub.phase.Guarding? && sub.kind.Run?
       case Create(_) => sub.phase.Creating?
       case CreateFails(_) => sub.phase.Creating?
       case Look(_, found) => sub.phase.Clashed? && Finds(s.jobs, sub.key, found)
       case LookAgain(_, found) => sub.phase.NotCreated? && sub.kind.Scan? && Finds(s.jobs, sub.key, found)
       case Enqueue(_) => sub.phase.Created?
       case EnqueueFails(_) => sub.phase.Created?
       case Mark(i) => sub.phase.Marking? && i in s.jobs
       case MarkFails(_) => sub.phase.Marking?
       case Free(_) => sub.phase.Freeing? || (sub.phase.NotCreated? && sub.kind.Run?)
       case _ => false)
    else
      && step.id in s.jobs
      && var job := s.jobs[step.id];
      match step
      case Touch(_) => job.work.Sent? && job.kind.Run?
      case CommitRunning(_) => job.work.Touched? || (job.work.Sent? && job.kind.Scan?)
      case Remove(_) => job.work.Going? && job.kind.Run?
      case CommitTerminal(_) => job.work.Removed? || (job.work.Going? && job.kind.Scan?)
      case _ => false
  }

  function Moved(s: System, i: nat, phase: Phase): System
    requires i < |s.submitters|
  {
    s.(submitters := s.submitters[i := s.submitters[i].(phase := phase)])
  }

  /** Raising from a submit that may hold a slot releases the slot first. */
  function Leaving(kind: Kind): Phase {
    if kind.Run? then Freeing(None) else Raised
  }

  function Apply(limit: Option<nat>, s: System, step: Step): System
    requires Enabled(s, step)
  {
    if BySubmitter(step) then BySubmit(limit, s, step) else ByWorker(s, step)
  }

  function BySubmit(limit: Option<nat>, s: System, step: Step): System
    requires Enabled(s, step) && BySubmitter(step)
  {
    var i := step.i;
    var sub := s.submitters[i];
    match step
    case Find(_, found) => Moved(s, i, if found.Some? then Returned(found.value) else Guarding(false))
    case Guard(_) =>
      if sub.kind.Scan? || limit.None? then Moved(s, i, Creating)
      else
        var (added, inflight) := TryAdd(s.inflight, limit.value, i);
        if added then Moved(s, i, Creating).(inflight := inflight)
        else Moved(s, i, if sub.phase.retried then Raised else Guarding(true))
    case GuardFails(_) => Moved(s, i, Raised)
    case Create(_) =>
      if exists id | id in s.jobs :: Active(s.jobs, id, sub.key) then Moved(s, i, Clashed)
      else Moved(s, i, Created).(jobs := s.jobs[i := Job(sub.key, sub.kind, Pending, Unsent)])
    case CreateFails(_) => Moved(s, i, Leaving(sub.kind))
    case Look(_, found) => Moved(s, i, if found.Some? then NotCreated(found.value) else Leaving(sub.kind))
    case LookAgain(_, found) => Moved(s, i, Returned(if found.Some? then found.value else sub.phase.existing))
    case Enqueue(_) => Moved(s, i, Returned(i)).(jobs := if i in s.jobs then WithStatus(s.jobs, i, Pending, Sent) else s.jobs)
    case EnqueueFails(_) => Moved(s, i, Marking)
    case Mark(_) => Moved(s, i, Leaving(sub.kind)).(jobs := WithStatus(s.jobs, i, Closed, Unsent))
    case MarkFails(_) => Moved(s, i, Leaving(sub.kind))
    case Free(_) =>
      var result := if sub.phase.Freeing? then sub.phase.result else Some(sub.phase.existing);
      Moved(s, i, if result.Some? then Returned(result.value) else Raised).(inflight := Release(s.inflight, sub.kind, i))
  }

  function ByWorker(s: System, step: Step): System
    requires Enabled(s, step) && !BySubmitter(step)
  {
    match step
    case Touch(id) => s.(inflight := s.inflight + {id}, jobs := WithStatus(s.jobs, id, s.jobs[id].status, Touched))
    case CommitRunning(id) => s.(jobs := WithStatus(s.jobs, id, Running, Going))
    case Remove(id) => s.(inflight := s.inflight - {id}, jobs := WithStatus(s.jobs, id, s.jobs[id].status, Removed))
    case CommitTerminal(id) => s.(jobs := WithStatus(s.jobs, id, Closed, Ended))
  }

  // ----- The invariant -----

  /** The submitter is between its guard and its end, so that its id may be in the set. */
  predicate Holding(phase: Phase) {
    phase.Creating? || phase.Clashed? || phase.NotCreated? || phase.Created? || phase.Marking? || phase.Freeing?
  }

  /** The submit has failed after its job was created. */
  predicate EnqueueFailed(phase: Phase) {
    phase.Marking? || phase.Freeing? || phase.Raised?
  }

  /** A worker is on its way to the job or at it. */
  predicate OnItsWay(work: Work) {
    work.Sent? || work.Touched? || work.Going?
  }

  predicate StatusFits(job: Job) {
    match job.work
    case Unsent => !job.status.Running?
    case Sent => job.status.Pending?
    case Touched => job.status.Pending?
    case Going => job.status.Running?
    case Removed => job.status.Running?
    case Ended => job.status.Closed?
  }

  ghost predicate JobOk(s: System, id: nat)
    requires id in s.jobs
  {
    var job := s.jobs[id];
    && id < |s.submitters| && s.submitters[id].key == job.key && s.submitters[id].kind == job.kind
    && StatusFits(job)
    && var phase := s.submitters[id].phase;
    if job.work.Unsent? then EnqueueFailed(phase) || (phase.Created? && job.status.Pending?) else phase == Returned(id)
  }

  /** Whose slot an id in the set is, and which ids must be in it when there is a limit. */
  ghost predicate SlotOk(limit: Option<nat>, s: System, i: nat)
    requires i < |s.submitters|
  {
    var sub := s.submitters[i];
    && (i in s.inflight ==> sub.kind.Run? && (Holding(sub.phase) || (i in s.jobs && OnItsWay(s.jobs[i].work))))
    && (sub.kind.Run? && limit.Some? && Holding(sub.phase) ==> i in s.inflight)
    && (sub.kind.Run? && limit.Some? && i in s.jobs && OnItsWay(s.jobs[i].work) ==> i in s.inflight)
  }

  ghost predicate SubmitterOk(s: System, i: nat)
    requires i < |s.submitters|
  {
    var sub := s.submitters[i];
    match sub.phase
    case Start => i !in s.jobs
    case Guarding(_) => i !in s.jobs
    case Creating => i !in s.jobs
    case Clashed => i !in s.jobs
    case NotCreated(existing) => i !in s.jobs && existing in s.jobs && s.jobs[existing].key == sub.key
    case Created => i in s.jobs
    case Marking => i in s.jobs
    case Freeing(result) => result.None?
    case Returned(id) => id in s.jobs && s.jobs[id].key == sub.key
    case Raised => true
  }

  ghost predicate OneActive(jobs: map<nat, Job>) {
    forall id, other, key {:trigger Active(jobs, id, key), Active(jobs, other, key)} ::
      Active(jobs, id, key) && Active(jobs, other, key) ==> id == other
  }

  ghost predicate Inv(limit: Option<nat>, s: System) {
    && (forall id | id in s.inflight :: id < |s.submitters|)
    && (limit.Some? ==> |s.inflight| <= limit.value)
    && (forall id | id in s.jobs :: JobOk(s, id))
    && (forall i: nat | i < |s.submitters| :: SlotOk(limit, s, i))
    && (forall i: nat | i < |s.submitters| :: SubmitterOk(s, i))
    && OneActive(s.jobs)
  }

  ghost predicate Initial(s: System) {
    && s.inflight == {} && s.jobs == map[]
    && forall i | 0 <= i < |s.submitters| :: s.submitters[i].phase.Start?
  }

  lemma InitialInv(limit: Option<nat>, s: System)
    requires Initial(s)
    ensures Inv(limit, s)
  {
  }

  /** Active jobs of a table after some have left it or stayed. */
  lemma OneActiveOfFewer(jobs: map<nat, Job>, after: map<nat, Job>)
    requires OneActive(jobs)
    requires forall id, key :: Active(after, id, key) ==> Active(jobs, id, key)
    ensures OneActive(after)
  {
    forall id, other, key | Active(after, id, key) && Active(after, other, key) ensures id == other {
      assert Active(jobs, id, key) && Active(jobs, other, key);
    }
  }

  lemma OneActiveOfNew(jobs: map<nat, Job>, id: nat, job: Job)
    requires OneActive(jobs) && !exists other | other in jobs :: Active(jobs, other, job.key)
    ensures OneActive(jobs[id := job])
  {
    var after := jobs[id := job];
    forall a, b, key | Active(after, a, key) && Active(after, b, key) ensures a == b {
      assert a != id ==> Active(jobs, a, key);
      assert b != id ==> Active(jobs, b, key);
    }
  }

  lemma SubmitKeepsOneActive(limit: Option<nat>, s: System, step: Step)
    requires Inv(limit, s) && Enabled(s, step) && BySubmitter(step)
    ensures OneActive(BySubmit(limit, s, step).jobs)
  {
    hide SlotOk;
    var t := BySubmit(limit, s, step);
    if step.Create? && t.jobs != s.jobs {
      OneActiveOfNew(s.jobs, step.i, t.jobs[step.i]);
    } else {
      assert SubmitterOk(s, step.i);
      assert step.i in s.jobs ==> JobOk(s, step.i);
      OneActiveOfFewer(s.jobs, t.jobs);
    }
  }

  lemma SubmitKeepsJob(limit: Option<nat>, s: System, step: Step, id: nat)
    requires Inv(limit, s) && Enabled(s, step) && BySubmitter(step) && id in BySubmit(limit, s, step).jobs
    ensures JobOk(BySubmit(limit, s, step), id)
  {
    hide SlotOk, OneActive, TryAdd;
    assert SubmitterOk(s, step.i);
    if id in s.jobs {
      assert JobOk(s, id);
    }
  }

  lemma SubmitKeepsSlot(limit: Option<nat>, s: System, step: Step, i: nat)
    requires Inv(limit, s) && Enabled(s, step) && BySubmitter(step) && i < |s.submitters|
    ensures SlotOk(limit, BySubmit(limit, s, step), i)
  {
    hide OneActive;
    assert SlotOk(limit, s, i) && SubmitterOk(s, step.i);
    assert step.i in s.jobs ==> JobOk(s, step.i);
  }

  lemma SubmitKeepsItself(limit: Option<nat>, s: System, step: Step)
    requires Inv(limit, s) && Enabled(s, step) && BySubmitter(step)
    ensures SubmitterOk(BySubmit(limit, s, step), step.i)
  {
    hide OneActive, SlotOk, TryAdd, Release;
    assert SubmitterOk(s, step.i);
    assert step.i in s.jobs ==> JobOk(s, step.i);
  }

  lemma SubmitKeepsOther(limit: Option<nat>, s: System, step: Step, i: nat)
    requires Inv(limit, s) && Enabled(s, step) && BySubmitter(step) && i < |s.submitters| && i != step.i
    ensures SubmitterOk(BySubmit(limit, s, step), i)
  {
    hide OneActive, SlotOk, TryAdd, Release, Active, JobOk, Finds;
    var t := BySubmit(limit, s, step);
    assert SubmitterOk(s, i) && SubmitterOk(s, step.i);
    assert t.submitters[i] == s.submitters[i];
    assert forall id | id in s.jobs :: id in t.jobs && t.jobs[id].key == s.jobs[id].key;
    assert i in t.jobs <==> i in s.jobs;
  }

  /** Neither operation on the set takes it over the limit. */
  lemma SetStaysSmall(inflight: set<nat>, limit: nat, kind: Kind, id: nat)
    requires |inflight| <= limit
    ensures TryAdd(inflight, limit, id).1 <= inflight + {id} && |TryAdd(inflight, limit, id).1| <= limit
    ensures Release(inflight, kind, id) <= inflight && |Release(inflight, kind, id)| <= limit
  {
    SubsetSize(Release(inflight, kind, id), inflight);
  }

  /** A submitter's step leaves the set alone, or is the guard's add, or a release. */
  lemma SubmitChangesSet(limit: Option<nat>, s: System, step: Step)
    requires Enabled(s, step) && BySubmitter(step)
    ensures var t, kind := BySubmit(limit, s, step), s.submitters[step.i].kind;
            && |t.submitters| == |s.submitters|
            && (|| t.inflight == s.inflight
                || t.inflight == Release(s.inflight, kind, step.i)
                || (limit.Some? && t.inflight == TryAdd(s.inflight, limit.value, step.i).1))
  {
    hide Release, Active, Finds;
  }

  lemma SubmitKeepsLimit(limit: Option<nat>, s: System, step: Step)
    requires Inv(limit, s) && Enabled(s, step) && BySubmitter(step)
    ensures var t := BySubmit(limit, s, step);
            && (limit.Some? ==> |t.inflight| <= limit.value)
            && forall id | id in t.inflight :: id < |t.submitters|
  {
    hide OneActive, SlotOk, JobOk, SubmitterOk, TryAdd, Release, Active, Finds, BySubmit;
    SubmitChangesSet(limit, s, step);
    var kind := s.submitters[step.i].kind;
    SetStaysSmall(s.inflight, if limit.Some? then limit.value else |s.inflight|, kind, step.i);
  }

  lemma SubmitKeepsInv(limit: Option<nat>, s: System, step: Step)
    requires Inv(limit, s) && Enabled(s, step) && BySubmitter(step)
    ensures Inv(limit, BySubmit(limit, s, step))
  {
    var t := BySubmit(limit, s, step);
    SubmitKeepsOneActive(limit, s, step);
    SubmitKeepsLimit(limit, s, step);
    hide OneActive, SlotOk, JobOk, SubmitterOk;
    assert |t.submitters| == |s.submitters|;
    forall i: nat | i < |t.submitters| ensures SlotOk(limit, t, i) && SubmitterOk(t, i) {
      SubmitKeepsSlot(limit, s, step, i);
      if i == step.i {
        SubmitKeepsItself(limit, s, step);
      } else {
        SubmitKeepsOther(limit, s, step, i);
      }
    }
    forall id | id in t.jobs ensures JobOk(t, id) {
      SubmitKeepsJob(limit, s, step, id);
    }
  }

  lemma WorkKeepsOneActive(limit: Option<nat>, s: System, step: Step)
    requires Inv(limit, s) && Enabled(s, step) && !BySubmitter(step)
    ensures OneActive(ByWorker(s, step).jobs)
  {
    hide SlotOk, SubmitterOk;
    assert JobOk(s, step.id);
    OneActiveOfFewer(s.jobs, ByWorker(s, step).jobs);
  }

  /** Adding the id of a job a worker has been sent adds nothing: it is in the set already. */
  lemma WorkKeepsLimit(limit: Option<nat>, s: System, step: Step)
    requires Inv(limit, s) && Enabled(s, step) && !BySubmitter(step)
    ensures var t := ByWorker(s, step);
            && (limit.Some? ==> t.inflight <= s.inflight && |t.inflight| <= limit.value)
            && forall id | id in t.inflight :: id < |t.submitters|
  {
    hide OneActive, SubmitterOk;
    var t := ByWorker(s, step);
    assert JobOk(s, step.id) && SlotOk(limit, s, step.id);
    if step.Remove? {
      assert s.inflight == t.inflight || s.inflight == t.inflight + {step.id};
    } else if limit.Some? {
      assert t.inflight == s.inflight;
    }
  }

  lemma WorkKeepsSubmitter(limit: Option<nat>, s: System, step: Step, i: nat)
    requires Inv(limit, s) && Enabled(s, step) && !BySubmitter(step) && i < |s.submitters|
    ensures SlotOk(limit, ByWorker(s, step), i) && SubmitterOk(ByWorker(s, step), i)
  {
    hide OneActive;
    assert JobOk(s, step.id) && SlotOk(limit, s, i) && SubmitterOk(s, i);
  }

  lemma WorkKeepsJob(limit: Option<nat>, s: System, step: Step, id: nat)
    requires Inv(limit, s) && Enabled(s, step) && !BySubmitter(step) && id in s.jobs
    ensures JobOk(ByWorker(s, step), id)
  {
    hide OneActive, SlotOk, SubmitterOk;
    assert JobOk(s, id);
  }

  lemma WorkKeepsInv(limit: Option<nat>, s: System, step: Step)
    requires Inv(limit, s) && Enabled(s, step) && !BySubmitter(step)
    ensures Inv(limit, ByWorker(s, step))
  {
    var t := ByWorker(s, step);
    WorkKeepsOneActive(limit, s, step);
    WorkKeepsLimit(limit, s, step);
    hide OneActive, SlotOk, SubmitterOk, JobOk;
    forall i: nat | i < |t.submitters| ensures SlotOk(limit, t, i) && SubmitterOk(t, i) {
      WorkKeepsSubmitter(limit, s, step, i);
    }
    forall id | id in t.jobs ensures JobOk(t, id) {
      WorkKeepsJob(limit, s, step, id);
    }
  }

  /** Every step keeps the invariant. */
  lemma StepKeepsInv(limit: Option<nat>, s: System, step: Step)
    requires Inv(limit, s) && Enabled(s, step)
    ensures Inv(limit, Apply(limit, s, step))
  {
    hide Inv;
    if BySubmitter(step) {
      SubmitKeepsInv(limit, s, step);
    } else {
      WorkKeepsInv(limit, s, step);
    }
  }

  // ----- The steps that read or write the set or the table -----

  /** The set in Redis and the job table, with what a submitter or a worker awaits on them. */
  class Store {
    const limit: Option<nat>
    var inflight: set<nat>
    var jobs: map<nat, Job>
    ghost var submitters: seq<Submitter>

    ghost function View(): System
      reads this
    {
      System(inflight, jobs, submitters)
    }

    ghost predicate Valid()
      reads this
    {
      Inv(limit, View())
    }

    ghost predicate Can(step: Step)
      reads this
    {
      Valid() && Enabled(View(), step)
    }

    constructor (limit: Option<nat>, ghost submitters: seq<Submitter>)
      requires forall i | 0 <= i < |submitters| :: submitters[i].phase.Start?
      ensures this.limit == limit && View() == System({}, map[], submitters) && Valid()
    {
      this.limit, this.inflight, this.jobs, this.submitters := limit, {}, map[], submitters;
    }

    /** The submitter moves on, which leaves the set and the table alone. */
    ghost method Move(i: nat, phase: Phase)
      requires i < |submitters|
      modifies this`submitters
      ensures View() == Moved(old(View()), i, phase)
    {
      submitters := submitters[i := submitters[i].(phase := phase)];
    }

    /** The id of an active job with the key, if there is one, is what the submit returns. */
    method FindExistingJob(ghost i: nat, key: nat) returns (found: Option<nat>)
      requires Valid() && i < |submitters| && submitters[i].phase.Start? && submitters[i].key == key
      modifies this`submitters
      ensures Finds(jobs, key, found) && View() == Apply(limit, old(View()), Find(i, found)) && Valid()
      ensures match found
              case Some(id) => id in jobs && jobs[id].key == key && (jobs[id].status.Pending? || jobs[id].status.Running?)
              case None => forall id | id in jobs && jobs[id].key == key :: jobs[id].status.Closed?
      ensures found.Some? ==> submitters == old(submitters)[i := old(submitters)[i].(phase := Returned(found.value))]
      ensures found.None? ==> submitters == old(submitters)[i := old(submitters)[i].(phase := Guarding(false))]
    {
      if id :| id in jobs && jobs[id].key == key && !jobs[id].status.Closed? {
        found := Some(id);
      } else {
        found := None;
      }
      StepKeepsInv(limit, View(), Find(i, found));
      Move(i, if found.Some? then Returned(found.value) else Guarding(false));
    }

    /** One try of the guard: the set never passes the limit, and an id is refused when it is full. */
    method TryGuard(i: nat, kind: Kind) returns (passed: bool)
      requires Can(Guard(i)) && submitters[i].kind == kind
      modifies this`inflight, this`submitters
      ensures View() == Apply(limit, old(View()), Guard(i)) && Valid()
      ensures passed <==> submitters[i].phase.Creating?
      ensures !passed ==> submitters[i].phase == if old(submitters)[i].phase.retried then Raised else Guarding(true)
      ensures !passed ==> inflight == old(inflight) && limit.Some? && |inflight| >= limit.value
      ensures passed && kind.Run? && limit.Some? ==> inflight == old(inflight) + {i} && |inflight| <= limit.value
    {
      StepKeepsInv(limit, View(), Guard(i));
      if kind.Scan? || limit.None? {
        Move(i, Creating);
        return true;
      }
      passed := |inflight| < limit.value;
      if passed {
        inflight := inflight + {i};
        Move(i, Creating);
      } else {
        Move(i, if submitters[i].phase.retried then Raised else Guarding(true));
      }
    }

    /** A commit that the unique index on active jobs refuses exactly when one has the key. */
    method CreateJob(i: nat, kind: Kind, key: nat) returns (created: bool)
      requires Can(Create(i)) && submitters[i].kind == kind && submitters[i].key == key
      modifies this`jobs, this`submitters
      ensures View() == Apply(limit, old(View()), Create(i)) && Valid()
      ensures created <==> forall id | id in old(jobs) && old(jobs)[id].key == key :: old(jobs)[id].status.Closed?
      ensures i !in old(jobs) && jobs.Keys == old(jobs).Keys + if created then {i} else {}
      ensures created ==> Active(jobs, i, key)
      ensures submitters[i].phase == if created then Created else Clashed
      ensures forall id | id in old(jobs) :: jobs[id] == old(jobs)[id]
    {
      StepKeepsInv(limit, View(), Create(i));
      assert SubmitterOk(View(), i);
      created := !exists other | other in jobs :: Active(jobs, other, key);
      if created {
        jobs := jobs[i := Job(key, kind, Pending, Unsent)];
        Move(i, Created);
      } else {
        Move(i, Clashed);
      }
    }

    /** The job whose enqueue failed is closed, and no other changes. */
    method MarkEnqueueFailure(i: nat)
      requires Can(Mark(i))
      modifies this`jobs, this`submitters
      ensures View() == Apply(limit, old(View()), Mark(i)) && Valid()
      ensures jobs.Keys == old(jobs).Keys && jobs[i].status.Closed?
      ensures submitters[i].phase == if submitters[i].kind.Run? then Freeing(None) else Raised
      ensures forall id | id in jobs && id != i :: jobs[id] == old(jobs)[id]
    {
      StepKeepsInv(limit, View(), Mark(i));
      jobs := jobs[i := jobs[i].(status := Closed, work := Unsent)];
      Move(i, Leaving(submitters[i].kind));
    }

    /** A submit that ends gives up its slot and no other's. */
    method ReleaseInflight(i: nat, kind: Kind)
      requires Can(Free(i)) && submitters[i].kind == kind
      modifies this`inflight, this`submitters
      ensures View() == Apply(limit, old(View()), Free(i)) && Valid()
      ensures old(submitters)[i].phase.Freeing? ==> submitters[i].phase == Raised
      ensures old(submitters)[i].phase.NotCreated? ==> submitters[i].phase == Returned(old(submitters)[i].phase.existing)
      ensures i !in inflight && forall id | id != i :: id in inflight <==> id in old(inflight)
    {
      StepKeepsInv(limit, View(), Free(i));
      assert SlotOk(limit, View(), i) && SubmitterOk(View(), i);
      if kind.Run? {
        inflight := inflight - {i};
      }
      ghost var sub := submitters[i];
      ghost var result := if sub.phase.Freeing? then sub.phase.result else Some(sub.phase.existing);
      Move(i, if result.Some? then Returned(result.value) else Raised);
    }

    /** A worker that starts a heavy job adds its id, which under a limit is in the set already. */
    method TouchInflight(id: nat)
      requires Can(Touch(id))
      modifies this`inflight, this`jobs
      ensures View() == Apply(limit, old(View()), Touch(id)) && Valid()
      ensures id in inflight && (limit.Some? ==> inflight == old(inflight))
    {
      StepKeepsInv(limit, View(), Touch(id));
      WorkKeepsLimit(limit, View(), Touch(id));
      inflight := inflight + {id};
      jobs := jobs[id := jobs[id].(work := Touched)];
    }

    /** A worker that ends a heavy job first takes its id out of the set; its job is still running. */
    method DecrementInflight(id: nat)
      requires Can(Remove(id))
      modifies this`inflight, this`jobs
      ensures View() == Apply(limit, old(View()), Remove(id)) && Valid()
      ensures id !in inflight && id in jobs && jobs[id].status.Running?
      ensures forall other | other != id :: other in inflight <==> other in old(inflight)
    {
      StepKeepsInv(limit, View(), Remove(id));
      assert JobOk(View(), id);
      inflight := inflight - {id};
      jobs := jobs[id := jobs[id].(work := Removed)];
    }

    /** The commit of a worker's status: the job is running, or closed and its slot free. */
    method CommitStatus(id: nat, terminal: bool)
      requires Can(if terminal then CommitTerminal(id) else CommitRunning(id))
      modifies this`jobs
      ensures View() == Apply(limit, old(View()), if terminal then CommitTerminal(id) else CommitRunning(id)) && Valid()
      ensures jobs.Keys == old(jobs).Keys && jobs[id].status == if terminal then Closed else Running
      ensures terminal ==> id !in inflight
      ensures forall other | other in jobs && other != id :: jobs[other] == old(jobs)[other]
    {
      StepKeepsInv(limit, View(), if terminal then CommitTerminal(id) else CommitRunning(id));
      assert JobOk(View(), id) && SlotOk(limit, View(), id);
      jobs := if terminal then jobs[id := jobs[id].(status := Closed, work := Ended)]
              else jobs[id := jobs[id].(status := Running, work := Going)];
    }
  }

  // ----- Runs -----

  ghost predicate IsRun(limit: Option<nat>, steps: seq<Step>, states: seq<System>) {
    && |states| == |steps| + 1 && Initial(states[0])
    && forall k | 0 <= k < |steps| :: Enabled(states[k], steps[k]) && states[k + 1] == Apply(limit, states[k], steps[k])
  }

  lemma {:induction false} RunKeepsInv(limit: Option<nat>, steps: seq<Step>, states: seq<System>, k: nat)
    requires IsRun(limit, steps, states) && k < |states|
    ensures Inv(limit, states[k])
    decreases k
  {
    hide Inv, Enabled, Apply;
    if k == 0 {
      InitialInv(limit, states[0]);
    } else {
      RunKeepsInv(limit, steps, states, k - 1);
      StepKeepsInv(limit, states[k - 1], steps[k - 1]);
      assert states[k - 1 + 1] == Apply(limit, states[k - 1], steps[k - 1]);
    }
  }

  /**
   * In every interleaving under a limit: the set is never larger than the limit; a heavy job that is
   * pending or running is missing from it exactly when it is inside its own terminal update or its
   * submit has raised; and an id in it belongs to a submit that has passed its guard and not ended or
   * to a job sent to a worker that has not begun its terminal update.
   */
  lemma InflightIsBounded(limit: nat, steps: seq<Step>, states: seq<System>, k: nat)
    requires IsRun(Some(limit), steps, states) && k < |states|
    ensures var s := states[k];
            && |s.inflight| <= limit
            && (forall id | id in s.jobs && s.jobs[id].kind.Run? && !s.jobs[id].status.Closed? ::
                  && id < |s.submitters|
                  && (id !in s.inflight <==> s.jobs[id].work.Removed? || s.submitters[id].phase.Raised?))
            && (forall id | id in s.inflight ::
                  id < |s.submitters| && (Holding(s.submitters[id].phase) || (id in s.jobs && OnItsWay(s.jobs[id].work))))
  {
    hide OneActive, SubmitterOk;
    RunKeepsInv(Some(limit), steps, states, k);
    var s := states[k];
    forall id | id in s.jobs && s.jobs[id].kind.Run? && !s.jobs[id].status.Closed?
      ensures id < |s.submitters|
      ensures id !in s.inflight <==> s.jobs[id].work.Removed? || s.submitters[id].phase.Raised?
    {
      assert JobOk(s, id) && SlotOk(Some(limit), s, id);
    }
    forall id | id in s.inflight
      ensures id < |s.submitters| && (Holding(s.submitters[id].phase) || (id in s.jobs && OnItsWay(s.jobs[id].work)))
    {
      assert SlotOk(Some(limit), s, id);
    }
  }

  /** A system of one submitter of a run, its set and its table. */
  function Alone(phase: Phase, inflight: set<nat>, jobs: map<nat, Job>): System {
    System(inflight, jobs, [Submitter(Run, 0, phase)])
  }

  lemma AloneUntilCreated(jobs: map<nat, Job>)
    requires jobs == map[]
    ensures var s := Alone(Start, {}, jobs);
            Enabled(s, Find(0, None)) && Apply(Some(1), s, Find(0, None)) == Alone(Guarding(false), {}, jobs)
    ensures var s := Alone(Guarding(false), {}, jobs);
            Enabled(s, Guard(0)) && Apply(Some(1), s, Guard(0)) == Alone(Creating, {0}, jobs)
    ensures var s := Alone(Creating, {0}, jobs);
            && Enabled(s, Create(0))
            && Apply(Some(1), s, Create(0)) == Alone(Created, {0}, jobs[0 := Job(0, Run, Pending, Unsent)])
  {
    assert forall id :: !Active(jobs, id, 0);
  }

  lemma AloneAfterCreated(jobs: map<nat, Job>)
    ensures var s := Alone(Created, {0}, jobs);
            Enabled(s, EnqueueFails(0)) && Apply(Some(1), s, EnqueueFails(0)) == Alone(Marking, {0}, jobs)
    ensures var s := Alone(Marking, {0}, jobs);
            Enabled(s, MarkFails(0)) && Apply(Some(1), s, MarkFails(0)) == Alone(Freeing(None), {0}, jobs)
    ensures var s := Alone(Freeing(None), {0}, jobs);
            Enabled(s, Free(0)) && Apply(Some(1), s, Free(0)) == Alone(Raised, {}, jobs)
  {
  }

  /**
   * A run that ends with a pending heavy job outside the set: its enqueue fails, the commit that would
   * mark it as failed fails too and is only logged, and its slot is released.
   */
  lemma PendingJobLeftOut() returns (steps: seq<Step>, states: seq<System>)
    ensures IsRun(Some(1), steps, states) && |states| == 7
    ensures states[6] == Alone(Raised, {}, map[0 := Job(0, Run, Pending, Unsent)])
  {
    hide Enabled, Apply;
    var none: map<nat, Job> := map[];
    var jobs := none[0 := Job(0, Run, Pending, Unsent)];
    AloneUntilCreated(none);
    AloneAfterCreated(jobs);
    steps := [Find(0, None), Guard(0), Create(0), EnqueueFails(0), MarkFails(0), Free(0)];
    states := [
      Alone(Start, {}, none), Alone(Guarding(false), {}, none), Alone(Creating, {0}, none), Alone(Created, {0}, jobs),
      Alone(Marking, {0}, jobs), Alone(Freeing(None), {0}, jobs), Alone(Raised, {}, jobs)];
  }

  /** When every submit has ended and every job sent has ended, no slot is left taken. */
  lemma NoSlotLeaks(limit: Option<nat>, steps: seq<Step>, states: seq<System>, k: nat)
    requires IsRun(limit, steps, states) && k < |states|
    requires forall sub | sub in states[k].submitters :: sub.phase.Returned? || sub.phase.Raised?
    requires forall id | id in states[k].jobs :: states[k].jobs[id].work.Ended? || states[k].jobs[id].work.Unsent?
    ensures states[k].inflight == {}
  {
    RunKeepsInv(limit, steps, states, k);
    var s := states[k];
    hide OneActive, SubmitterOk, JobOk;
    forall id: nat | id < |s.submitters| ensures id !in s.inflight {
      assert SlotOk(limit, s, id) && s.submitters[id] in s.submitters;
    }
    assert forall id :: id !in s.inflight;
  }

  // ----- How a submit ends -----

  /** The step is a try of the guard that finds the set full. */
  predicate Refuses(limit: Option<nat>, s: System, step: Step, i: nat) {
    && step == Guard(i) && i < |s.submitters| && s.submitters[i].kind.Run?
    && limit.Some? && |s.inflight| >= limit.value
  }

  /** The step is a failure of what the submit awaits, or finds the clash gone. */
  predicate Fails(step: Step, i: nat) {
    step == GuardFails(i) || step == CreateFails(i) || step == EnqueueFails(i) || step == Look(i, None)
  }

  predicate Failed(phase: Phase) {
    phase.Marking? || phase.Freeing? || phase.Raised?
  }

  /** Where each step takes its submit. */
  lemma SubmitTakes(limit: Option<nat>, s: System, step: Step, t: System)
    requires Inv(limit, s) && Enabled(s, step) && BySubmitter(step) && t == Apply(limit, s, step)
    ensures |t.submitters| == |s.submitters|
    ensures step.Find? ==> t.inflight == s.inflight && t.jobs == s.jobs
    ensures var sub, phase := s.submitters[step.i], t.submitters[step.i].phase;
            var leaving := if sub.kind.Run? then Freeing(None) else Raised;
            match step
            case Find(_, found) => phase == if found.Some? then Returned(found.value) else Guarding(false)
            case Guard(i) =>
              if !Refuses(limit, s, step, i) then phase == Creating
              else phase == if sub.phase.retried then Raised else Guarding(true)
            case GuardFails(_) => phase == Raised
            case Create(i) => phase == if Finds(s.jobs, sub.key, None) then Created else Clashed
            case CreateFails(_) => phase == leaving
            case Look(_, found) => phase == if found.Some? then NotCreated(found.value) else leaving
            case LookAgain(_, found) => phase == Returned(if found.Some? then found.value else sub.phase.existing)
            case Enqueue(i) => phase == Returned(i)
            case EnqueueFails(_) => phase == Marking
            case Mark(_) => phase == leaving
            case MarkFails(_) => phase == leaving
            case Free(_) => phase == if sub.phase.NotCreated? then Returned(sub.phase.existing) else Raised
  {
    hide OneActive, SlotOk, JobOk, TryAdd, Release;
    assert SubmitterOk(s, step.i);
    if step.Guard? && Refuses(limit, s, step, step.i) {
      assert !TryAdd(s.inflight, limit.value, step.i).0 by {
        FullSetRefuses(s.inflight, limit.value, step.i);
      }
    } else if step.Guard? && limit.Some? {
      FullSetRefuses(s.inflight, limit.value, step.i);
    }
  }

  lemma FullSetRefuses(inflight: set<nat>, limit: nat, id: nat)
    ensures TryAdd(inflight, limit, id).0 <==> |inflight| < limit
  {
  }

  lemma OthersStay(limit: Option<nat>, s: System, step: Step, i: nat)
    requires Enabled(s, step) && i < |s.submitters| && !(BySubmitter(step) && step.i == i)
    ensures |Apply(limit, s, step).submitters| == |s.submitters|
    ensures Apply(limit, s, step).submitters[i] == s.submitters[i]
  {
    hide TryAdd, Release, Active, Finds;
  }

  /** A submit that has not ended can go on, and whatever it awaits may fail. */
  lemma SubmitGoesOn(s: System, i: nat)
    requires i < |s.submitters| && SubmitterOk(s, i)
    ensures var sub := s.submitters[i];
            sub.phase.Returned? || sub.phase.Raised? || exists step :: BySubmitter(step) && step.i == i && Enabled(s, step)
    ensures var sub := s.submitters[i];
            && (sub.phase.Guarding? && sub.kind.Run? ==> Enabled(s, GuardFails(i)))
            && (sub.phase.Creating? ==> Enabled(s, CreateFails(i)))
            && (sub.phase.Created? ==> Enabled(s, EnqueueFails(i)))
            && (sub.phase.Marking? ==> Enabled(s, MarkFails(i)))
  {
    var sub := s.submitters[i];
    var found: Option<nat> := None;
    if id :| Active(s.jobs, id, sub.key) {
      found := Some(id);
    }
    assert Finds(s.jobs, sub.key, found);
    var step := match sub.phase
      case Start => Find(i, found)
      case Guarding(_) => Guard(i)
      case Creating => Create(i)
      case Clashed => Look(i, found)
      case NotCreated(_) => if sub.kind.Run? then Free(i) else LookAgain(i, found)
      case Created => Enqueue(i)
      case Marking => Mark(i)
      case _ => Free(i);
    assert BySubmitter(step) && step.i == i;
    if !sub.phase.Returned? && !sub.phase.Raised? {
      assert Enabled(s, step);
    }
  }

  /** A worker that has been sent a job and has not ended it can go on, through the stages of its kind. */
  lemma WorkerGoesOn(limit: Option<nat>, s: System, id: nat) returns (step: Step)
    requires id in s.jobs && !s.jobs[id].work.Unsent? && !s.jobs[id].work.Ended?
    ensures !BySubmitter(step) && step.id == id && Enabled(s, step)
    ensures var job, t := s.jobs[id], Apply(limit, s, step);
            && t.jobs.Keys == s.jobs.Keys
            && match job.work
               case Sent => t.jobs[id].work == if job.kind.Run? then Touched else Going
               case Touched => t.jobs[id].work == Going
               case Going => t.jobs[id].work == if job.kind.Run? then Removed else Ended
               case _ => t.jobs[id].work == Ended
  {
    var job := s.jobs[id];
    step := match job.work
      case Sent => if job.kind.Run? then Touch(id) else CommitRunning(id)
      case Touched => CommitRunning(id)
      case Going => if job.kind.Run? then Remove(id) else CommitTerminal(id)
      case _ => CommitTerminal(id);
  }

  ghost predicate RefusedBefore(limit: Option<nat>, steps: seq<Step>, states: seq<System>, i: nat, k: nat)
    requires k <= |steps| <= |states|
  {
    exists q | 0 <= q < k :: Refuses(limit, states[q], steps[q], i)
  }

  ghost predicate RefusedTwice(limit: Option<nat>, steps: seq<Step>, states: seq<System>, i: nat, k: nat)
    requires k <= |steps| <= |states|
  {
    exists p, q | 0 <= q < p < k :: Refuses(limit, states[q], steps[q], i) && Refuses(limit, states[p], steps[p], i)
  }

  ghost predicate FailedBefore(steps: seq<Step>, i: nat, k: nat)
    requires k <= |steps|
  {
    exists p | 0 <= p < k :: Fails(steps[p], i)
  }

  lemma HistoryGrows(limit: Option<nat>, steps: seq<Step>, states: seq<System>, i: nat, k: nat)
    requires k < |steps| <= |states|
    ensures RefusedBefore(limit, steps, states, i, k + 1) <==>
              RefusedBefore(limit, steps, states, i, k) || Refuses(limit, states[k], steps[k], i)
    ensures RefusedTwice(limit, steps, states, i, k + 1) <==>
              || RefusedTwice(limit, steps, states, i, k)
              || (RefusedBefore(limit, steps, states, i, k) && Refuses(limit, states[k], steps[k], i))
    ensures FailedBefore(steps, i, k + 1) <==> FailedBefore(steps, i, k) || Fails(steps[k], i)
  {
    hide Refuses, Fails;
  }

  /**
   * A submit is on its way to raising exactly when something it awaited failed or the guard found the
   * set full twice; until then it is at its second try exactly when the guard has refused it once.
   */
  lemma {:induction false} FailsIff(limit: Option<nat>, steps: seq<Step>, states: seq<System>, i: nat, k: nat)
    requires IsRun(limit, steps, states) && k < |states| && i < |states[0].submitters|
    ensures i < |states[k].submitters|
    ensures states[k].submitters[i].phase.Start? ==> !RefusedBefore(limit, steps, states, i, k)
    ensures states[k].submitters[i].phase.Guarding? ==>
              (states[k].submitters[i].phase.retried <==> RefusedBefore(limit, steps, states, i, k))
    ensures Failed(states[k].submitters[i].phase) <==>
              RefusedTwice(limit, steps, states, i, k) || FailedBefore(steps, i, k)
    decreases k
  {
    hide RefusedBefore, RefusedTwice, FailedBefore, Inv, Enabled, Apply, Refuses, Fails, Initial, Finds;
    if k == 0 {
      NoHistoryYet(limit, steps, states, i);
    } else {
      FailsIff(limit, steps, states, i, k - 1);
      HistoryGrows(limit, steps, states, i, k - 1);
      RunKeepsInv(limit, steps, states, k - 1);
      var s, step, t := states[k - 1], steps[k - 1], states[k];
      assert Enabled(s, step) && states[k - 1 + 1] == Apply(limit, s, step);
      if BySubmitter(step) && step.i == i {
        SubmitTakes(limit, s, step, t);
        StepComesFrom(s, step);
        WhichStepFails(limit, s, step, i);
      } else {
        OthersStay(limit, s, step, i);
        WhichStepFails(limit, s, step, i);
      }
    }
  }

  lemma NoHistoryYet(limit: Option<nat>, steps: seq<Step>, states: seq<System>, i: nat)
    requires IsRun(limit, steps, states) && i < |states[0].submitters|
    ensures states[0].submitters[i].phase.Start?
    ensures !RefusedBefore(limit, steps, states, i, 0) && !RefusedTwice(limit, steps, states, i, 0)
    ensures !FailedBefore(steps, i, 0)
  {
  }

  lemma StepComesFrom(s: System, step: Step)
    requires Enabled(s, step) && BySubmitter(step)
    ensures step.i < |s.submitters|
    ensures var phase := s.submitters[step.i].phase;
            match step
            case Find(_, _) => phase.Start?
            case Guard(_) => phase.Guarding?
            case GuardFails(_) => phase.Guarding?
            case Mark(_) => phase.Marking?
            case MarkFails(_) => phase.Marking?
            case Free(_) => phase.Freeing? || phase.NotCreated?
            case LookAgain(_, _) => phase.NotCreated?
            case _ => phase.Creating? || phase.Clashed? || phase.Created?
  {
  }

  lemma WhichStepFails(limit: Option<nat>, s: System, step: Step, i: nat)
    ensures Refuses(limit, s, step, i) || Fails(step, i) ==> BySubmitter(step) && step.i == i
    ensures Refuses(limit, s, step, i) ==> step.Guard?
    ensures Fails(step, i) ==> step.GuardFails? || step.CreateFails? || step.EnqueueFails? || step == Look(i, None)
    ensures step == GuardFails(i) || step == CreateFails(i) || step == EnqueueFails(i) || step == Look(i, None) ==> Fails(step, i)
  {
  }

  /** A submit that has ended takes no further step. */
  lemma {:induction false} EndedStays(
    limit: Option<nat>, steps: seq<Step>, states: seq<System>, i: nat, p: nat, q: nat)
    requires IsRun(limit, steps, states) && p <= q < |states| && i < |states[p].submitters|
    requires states[p].submitters[i].phase.Returned? || states[p].submitters[i].phase.Raised?
    ensures i < |states[q].submitters| && states[q].submitters[i] == states[p].submitters[i]
    ensures q < |steps| ==> !(BySubmitter(steps[q]) && steps[q].i == i)
    decreases q
  {
    hide Apply, Finds;
    if p < q {
      EndedStays(limit, steps, states, i, p, q - 1);
      assert Enabled(states[q - 1], steps[q - 1]) && states[q - 1 + 1] == Apply(limit, states[q - 1], steps[q - 1]);
      OthersStay(limit, states[q - 1], steps[q - 1], i);
    }
    if q < |steps| {
      assert Enabled(states[q], steps[q]);
    }
  }

  /**
   * A submit whose look-up comes while a job with its key is active has returned that job's id one step
   * later, and from then on neither guards, creates, enqueues nor raises; the set and the table are
   * left alone by the look-up. When there is none it goes on to the guard.
   */
  lemma FoundIsReturned(limit: Option<nat>, steps: seq<Step>, states: seq<System>, k: nat, id: nat, q: nat)
    requires IsRun(limit, steps, states) && k < q < |states| && steps[k].Find?
    requires steps[k].i < |states[k].submitters| && Active(states[k].jobs, id, states[k].submitters[steps[k].i].key)
    ensures states[k + 1].inflight == states[k].inflight && states[k + 1].jobs == states[k].jobs
    ensures steps[k].i < |states[q].submitters| && states[q].submitters[steps[k].i].phase == Returned(id)
    ensures q < |steps| ==> !(BySubmitter(steps[q]) && steps[q].i == steps[k].i)
  {
    hide SlotOk, SubmitterOk, JobOk, Apply;
    RunKeepsInv(limit, steps, states, k);
    assert Enabled(states[k], steps[k]) && states[k + 1] == Apply(limit, states[k], steps[k]);
    SubmitTakes(limit, states[k], steps[k], states[k + 1]);
    EndedStays(limit, steps, states, steps[k].i, k + 1, q);
  }

  /** What the submit will return, or has returned, once it has learnt of a job. */
  function Learnt(sub: Submitter): Option<nat> {
    if sub.phase.Returned? then Some(sub.phase.id)
    else if sub.phase.NotCreated? then Some(sub.phase.existing)
    else None
  }

  /** The submit has learnt of the job, or its own enqueue has succeeded. */
  predicate Answers(step: Step, i: nat, id: nat) {
    step == Find(i, Some(id)) || step == Look(i, Some(id)) || step == LookAgain(i, Some(id)) || (step == Enqueue(i) && id == i)
  }

  ghost predicate AnsweredBefore(steps: seq<Step>, i: nat, id: nat, k: nat)
    requires k <= |steps|
  {
    exists p | 0 <= p < k :: Answers(steps[p], i, id)
  }

  /** What a submit returns is a job it has found active, or its own once that has been enqueued. */
  lemma {:induction false} ReturnsAnAnswer(limit: Option<nat>, steps: seq<Step>, states: seq<System>, i: nat, k: nat)
    requires IsRun(limit, steps, states) && k < |states| && i < |states[0].submitters|
    ensures i < |states[k].submitters|
    ensures Learnt(states[k].submitters[i]).Some? ==>
              AnsweredBefore(steps, i, Learnt(states[k].submitters[i]).value, k)
    decreases k
  {
    hide AnsweredBefore, Inv, Enabled, Apply, Refuses, Answers, Initial, Finds;
    if k == 0 {
      NoHistoryYet(limit, steps, states, i);
    } else {
      ReturnsAnAnswer(limit, steps, states, i, k - 1);
      RunKeepsInv(limit, steps, states, k - 1);
      var s, step, t := states[k - 1], steps[k - 1], states[k];
      assert Enabled(s, step) && states[k - 1 + 1] == Apply(limit, s, step);
      if BySubmitter(step) && step.i == i {
        SubmitTakes(limit, s, step, t);
        StepComesFrom(s, step);
      } else {
        OthersStay(limit, s, step, i);
      }
      var learnt := Learnt(t.submitters[i]);
      if learnt.Some? {
        AnswerCounts(steps, i, learnt.value, k - 1);
      }
    }
  }

  lemma AnswerCounts(steps: seq<Step>, i: nat, id: nat, k: nat)
    requires k < |steps|
    ensures AnsweredBefore(steps, i, id, k) || Answers(steps[k], i, id) ==> AnsweredBefore(steps, i, id, k + 1)
    ensures steps[k] == Find(i, Some(id)) || steps[k] == Look(i, Some(id)) || steps[k] == LookAgain(i, Some(id)) ==>
              Answers(steps[k], i, id)
    ensures steps[k] == Enqueue(i) && id == i ==> Answers(steps[k], i, id)
  {
  }

  // ----- Idempotent submits -----

  /** From state `a` on no job with the key leaves pending or running. */
  ghost predicate NoneLeaves(states: seq<System>, a: nat, key: nat) {
    forall k, id | a <= k < |states| - 1 && Active(states[k].jobs, id, key) :: Active(states[k + 1].jobs, id, key)
  }

  /** A job learnt of is active when it is learnt of, and no other is learnt of while it stays active. */
  ghost predicate LearntWell(s: System, t: System, i: nat)
    requires i < |s.submitters| && i < |t.submitters|
  {
    var before, after, key := Learnt(s.submitters[i]), Learnt(t.submitters[i]), s.submitters[i].key;
    && t.submitters[i].key == key
    && (after.Some? ==> Active(t.jobs, after.value, key) || (before.Some? && after == before)
                        || (before.Some? && Active(s.jobs, after.value, key)))
  }

  lemma StepLearns(limit: Option<nat>, s: System, step: Step, i: nat)
    requires Inv(limit, s) && Enabled(s, step) && i < |s.submitters|
    ensures |Apply(limit, s, step).submitters| == |s.submitters|
    ensures LearntWell(s, Apply(limit, s, step), i)
  {
    hide OneActive, SlotOk, TryAdd, Release;
    assert SubmitterOk(s, i);
    assert i in s.jobs ==> JobOk(s, i);
  }

  /** While no job with the key leaves, what a submit has learnt of is active. */
  lemma {:induction false} LearntIsActive(
    limit: Option<nat>, steps: seq<Step>, states: seq<System>, a: nat, key: nat, i: nat, k: nat)
    requires IsRun(limit, steps, states) && a <= k < |states| && NoneLeaves(states, a, key)
    requires i < |states[a].submitters| && states[a].submitters[i].phase.Start? && states[a].submitters[i].key == key
    ensures i < |states[k].submitters| && states[k].submitters[i].key == key
    ensures Learnt(states[k].submitters[i]).Some? ==> Active(states[k].jobs, Learnt(states[k].submitters[i]).value, key)
    decreases k
  {
    hide NoneLeaves, Inv, Enabled, Apply, Active;
    if k > a {
      LearntIsActive(limit, steps, states, a, key, i, k - 1);
      RunKeepsInv(limit, steps, states, k - 1);
      var s, t := states[k - 1], states[k];
      assert states[k - 1 + 1] == Apply(limit, s, steps[k - 1]);
      StepLearns(limit, s, steps[k - 1], i);
      var learnt := Learnt(t.submitters[i]);
      if learnt.Some? && Active(s.jobs, learnt.value, key) {
        ActiveStays(states, a, key, learnt.value, k - 1, k);
      }
    }
  }

  /**
   * Submits that begin with the same organisation and key, while no job with it leaves pending or
   * running, return the same task id, whatever the interleaving.
   */
  lemma SubmitsAgree(
    limit: Option<nat>, steps: seq<Step>, states: seq<System>, a: nat, key: nat, i: nat, j: nat, k: nat)
    requires IsRun(limit, steps, states) && a <= k < |states| && NoneLeaves(states, a, key)
    requires i < |states[a].submitters| && states[a].submitters[i].phase.Start? && states[a].submitters[i].key == key
    requires j < |states[a].submitters| && states[a].submitters[j].phase.Start? && states[a].submitters[j].key == key
    requires |states[k].submitters| == |states[a].submitters|
    requires states[k].submitters[i].phase.Returned? && states[k].submitters[j].phase.Returned?
    ensures states[k].submitters[i].phase.id == states[k].submitters[j].phase.id
    ensures Active(states[k].jobs, states[k].submitters[i].phase.id, key)
  {
    hide NoneLeaves;
    RunKeepsInv(limit, steps, states, k);
    LearntIsActive(limit, steps, states, a, key, i, k);
    LearntIsActive(limit, steps, states, a, key, j, k);
  }

  lemma {:induction false} ActiveStays(states: seq<System>, a: nat, key: nat, id: nat, p: nat, q: nat)
    requires a <= p <= q < |states| && NoneLeaves(states, a, key) && Active(states[p].jobs, id, key)
    ensures Active(states[q].jobs, id, key)
    decreases q
  {
    if p < q {
      ActiveStays(states, a, key, id, p, q - 1);
      assert Active(states[q - 1 + 1].jobs, id, key);
    }
  }

  predicate Attempted(phase: Phase) {
    phase.Marking? || phase.Freeing? || phase.Returned? || phase.Raised?
  }

  lemma StepKeepsAttempted(limit: Option<nat>, s: System, step: Step, i: nat)
    requires Enabled(s, step) && i < |s.submitters| && Attempted(s.submitters[i].phase)
    ensures i < |Apply(limit, s, step).submitters| && Attempted(Apply(limit, s, step).submitters[i].phase)
  {
    hide TryAdd, Release, Active;
  }

  lemma {:induction false} AttemptedStays(
    limit: Option<nat>, steps: seq<Step>, states: seq<System>, i: nat, p: nat, q: nat)
    requires IsRun(limit, steps, states) && p <= q < |states|
    requires i < |states[p].submitters| && Attempted(states[p].submitters[i].phase)
    ensures i < |states[q].submitters| && Attempted(states[q].submitters[i].phase)
    decreases q
  {
    hide Apply, Enabled, Attempted;
    if p < q {
      AttemptedStays(limit, steps, states, i, p, q - 1);
      StepKeepsAttempted(limit, states[q - 1], steps[q - 1], i);
      assert states[q - 1 + 1] == Apply(limit, states[q - 1], steps[q - 1]);
    }
  }

  predicate TriesToEnqueue(s: System, step: Step, key: nat) {
    (step.Enqueue? || step.EnqueueFails?) && step.i < |s.submitters| && s.submitters[step.i].key == key
  }

  lemma AttemptIsOfActive(limit: Option<nat>, s: System, step: Step, key: nat)
    requires Inv(limit, s) && Enabled(s, step) && TriesToEnqueue(s, step, key)
    ensures Active(s.jobs, step.i, key) && !Attempted(s.submitters[step.i].phase)
    ensures |Apply(limit, s, step).submitters| == |s.submitters|
    ensures Attempted(Apply(limit, s, step).submitters[step.i].phase)
  {
    hide OneActive, SlotOk, TryAdd, Release;
    assert SubmitterOk(s, step.i);
    assert JobOk(s, step.i);
  }

  /** While no job with the key leaves pending or running, at most one enqueue for it is tried. */
  lemma EnqueuedOnce(
    limit: Option<nat>, steps: seq<Step>, states: seq<System>, a: nat, key: nat, p: nat, q: nat)
    requires IsRun(limit, steps, states) && a <= p <= q < |steps| && NoneLeaves(states, a, key)
    requires TriesToEnqueue(states[p], steps[p], key) && TriesToEnqueue(states[q], steps[q], key)
    ensures p == q
  {
    hide NoneLeaves;
    if p < q {
      RunKeepsInv(limit, steps, states, p);
      RunKeepsInv(limit, steps, states, q);
      assert states[p + 1] == Apply(limit, states[p], steps[p]);
      AttemptIsOfActive(limit, states[p], steps[p], key);
      AttemptIsOfActive(limit, states[q], steps[q], key);
      ActiveStays(states, a, key, steps[p].i, p, q);
      AttemptedStays(limit, steps, states, steps[p].i, p + 1, q);
      hide Enabled, Apply, Attempted, Active, SlotOk, SubmitterOk, JobOk;
    }
  }
}
