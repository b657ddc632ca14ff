/**
 * The counters of a runtime lane around its semaphore, for concurrent calls that may fail or be
 * cancelled at any await. Models `run_fs_io_async` of `backend/app/infra/fs_runtime.py`; the CPU
 * runtime of `backend/app/infra/cpu_runtime.py` keeps the same counters in the same way.
 */
module RuntimeLane {
  import opened Basics

  /**
   * `permits` is what the semaphore has left. The sets say where each call is: in `acquire()`, handed
   * a permit but not resumed yet, or between `acquire()` and `release()`.
   */
  datatype LaneState = LaneState(
    queueDepth: int, inFlight: int, peakQueueDepth: int, peakInFlight: int, permits: nat,
    waiting: set<nat>, granted: set<nat>, running: set<nat>)

  /**
   * `Enter` runs to the `acquire()`, `Start` on from it, `Finish` on from the executor whether it
   * returned, raised or was cancelled; `Abandon` is a call cancelled in `acquire()`.
   */
  datatype Step = Enter(call: nat) | Grant(call: nat) | Start(call: nat) | Finish(call: nat) | Abandon(call: nat)

  predicate Enabled(s: LaneState, step: Step) {
    match step
    case Enter(c) => c !in s.waiting + s.granted + s.running
    case Grant(c) => c in s.waiting && s.permits > 0
    case Start(c) => c in s.granted
    case Finish(c) => c in s.running
    case Abandon(c) => c in s.waiting + s.granted
  }

  function Apply(s: LaneState, step: Step): LaneState
    requires Enabled(s, step)
  {
    match step
    case Enter(c) =>
      s.(queueDepth := s.queueDepth + 1, peakQueueDepth := Max(s.peakQueueDepth, s.queueDepth + 1),
         waiting := s.waiting + {c})
    case Grant(c) => s.(permits := s.permits - 1, waiting := s.waiting - {c}, granted := s.granted + {c})
    case Start(c) =>
      s.(queueDepth := Max(0, s.queueDepth - 1), inFlight := s.inFlight + 1,
         peakInFlight := Max(s.peakInFlight, s.inFlight + 1),
         granted := s.granted - {c}, running := s.running + {c})
    case Finish(c) =>
      s.(inFlight := Max(0, s.inFlight - 1), permits := s.permits + 1, running := s.running - {c})
    case Abandon(c) =>
      if c in s.granted then
        s.(queueDepth := Max(0, s.queueDepth - 1), permits := s.permits + 1, granted := s.granted - {c})
      else
        s.(queueDepth := Max(0, s.queueDepth - 1), waiting := s.waiting - {c})
  }

  /** The counters count the calls, and every permit is free or with one call. */
  ghost predicate Counted(s: LaneState, maxConcurrency: nat) {
    && s.waiting !! s.granted !! s.running
    && s.queueDepth == |s.waiting| + |s.granted|
    && s.inFlight == |s.running|
    && s.permits + |s.granted| + s.inFlight == maxConcurrency
    && s.queueDepth <= s.peakQueueDepth
    && s.inFlight <= s.peakInFlight <= maxConcurrency
  }

  class Lane {
    const maxConcurrency: nat
    var queueDepth: int
    var inFlight: int
    var peakQueueDepth: int
    var peakInFlight: int
    var permits: nat
    ghost var waiting: set<nat>
    ghost var granted: set<nat>
    ghost var running: set<nat>

    ghost function View(): LaneState
      reads this
    {
      LaneState(queueDepth, inFlight, peakQueueDepth, peakInFlight, permits, waiting, granted, running)
    }

    ghost predicate Valid()
      reads this
    {
      Counted(View(), maxConcurrency)
    }

    constructor (maxConcurrency: nat)
      ensures Valid() && this.maxConcurrency == maxConcurrency
      ensures View() == Fresh(maxConcurrency)
    {
      this.maxConcurrency := maxConcurrency;
      queueDepth, inFlight, peakQueueDepth, peakInFlight, permits := 0, 0, 0, 0, maxConcurrency;
      waiting, granted, running := {}, {}, {};
    }

    method EnterCall(ghost call: nat)
      requires Valid() && Enabled(View(), Enter(call))
      modifies this
      ensures Valid() && View() == Apply(old(View()), Enter(call))
    {
      queueDepth := queueDepth + 1;
      peakQueueDepth := Max(peakQueueDepth, queueDepth);
      waiting := waiting + {call};
    }

    /** The semaphore hands a permit to a call in `acquire()`. */
    method GrantPermit(ghost call: nat)
      requires Valid() && Enabled(View(), Grant(call))
      modifies this
      ensures Valid() && View() == Apply(old(View()), Grant(call))
    {
      permits := permits - 1;
      waiting, granted := waiting - {call}, granted + {call};
    }

    method StartCall(ghost call: nat)
      requires Valid() && Enabled(View(), Start(call))
      modifies this
      ensures Valid() && View() == Apply(old(View()), Start(call))
      ensures queueDepth == old(queueDepth) - 1
    {
      queueDepth := Max(0, queueDepth - 1);
      inFlight := inFlight + 1;
      peakInFlight := Max(peakInFlight, inFlight);
      granted, running := granted - {call}, running + {call};
    }

    method FinishCall(ghost call: nat)
      requires Valid() && Enabled(View(), Finish(call))
      modifies this
      ensures Valid() && View() == Apply(old(View()), Finish(call))
      ensures inFlight == old(inFlight) - 1
    {
      inFlight := Max(0, inFlight - 1);
      permits := permits + 1;
      running := running - {call};
    }

    /** A call cancelled in `acquire()`; the semaphore takes back a permit already handed to it. */
    method AbandonCall(ghost call: nat, handed: bool)
      requires Valid() && Enabled(View(), Abandon(call)) && handed == (call in granted)
      modifies this
      ensures Valid() && View() == Apply(old(View()), Abandon(call))
      ensures queueDepth == old(queueDepth) - 1
    {
      queueDepth := Max(0, queueDepth - 1);
      if handed {
        permits := permits + 1;
        granted := granted - {call};
      } else {
        waiting := waiting - {call};
      }
    }
  }

  // ----- Runs -----

  function Fresh(maxConcurrency: nat): LaneState {
    LaneState(0, 0, 0, 0, maxConcurrency, {}, {}, {})
  }

  ghost predicate IsRun(maxConcurrency: nat, steps: seq<Step>, states: seq<LaneState>) {
    && |states| == |steps| + 1 && states[0] == Fresh(maxConcurrency)
    && forall k | 0 <= k < |steps| :: Enabled(states[k], steps[k]) && states[k + 1] == Apply(states[k], steps[k])
  }

  lemma EnterKeepsCount(s: LaneState, c: nat, maxConcurrency: nat)
    requires Counted(s, maxConcurrency) && Enabled(s, Enter(c))
    ensures Counted(Apply(s, Enter(c)), maxConcurrency)
  {
  }

  lemma GrantKeepsCount(s: LaneState, c: nat, maxConcurrency: nat)
    requires Counted(s, maxConcurrency) && Enabled(s, Grant(c))
    ensures Counted(Apply(s, Grant(c)), maxConcurrency)
  {
  }

  lemma StartKeepsCount(s: LaneState, c: nat, maxConcurrency: nat)
    requires Counted(s, maxConcurrency) && Enabled(s, Start(c))
    ensures Counted(Apply(s, Start(c)), maxConcurrency)
  {
  }

  lemma FinishKeepsCount(s: LaneState, c: nat, maxConcurrency: nat)
    requires Counted(s, maxConcurrency) && Enabled(s, Finish(c))
    ensures Counted(Apply(s, Finish(c)), maxConcurrency)
  {
  }

  lemma AbandonKeepsCount(s: LaneState, c: nat, maxConcurrency: nat)
    requires Counted(s, maxConcurrency) && Enabled(s, Abandon(c))
    ensures Counted(Apply(s, Abandon(c)), maxConcurrency)
  {
  }

  /** Every step keeps the count. */
  lemma StepKeepsCount(s: LaneState, step: Step, maxConcurrency: nat)
    requires Counted(s, maxConcurrency) && Enabled(s, step)
    ensures Counted(Apply(s, step), maxConcurrency)
  {
    hide Counted, Apply;
    match step
    case Enter(c) => EnterKeepsCount(s, c, maxConcurrency);
    case Grant(c) => GrantKeepsCount(s, c, maxConcurrency);
    case Start(c) => StartKeepsCount(s, c, maxConcurrency);
    case Finish(c) => FinishKeepsCount(s, c, maxConcurrency);
    case Abandon(c) => AbandonKeepsCount(s, c, maxConcurrency);
  }

  /**
   * In every interleaving of calls, failures and cancellations: the counters count the calls waiting
   * and holding a permit, no more calls hold one than allowed, and no permit is lost or made up.
   */
  lemma {:induction false} RunKeepsCount(maxConcurrency: nat, steps: seq<Step>, states: seq<LaneState>, k: nat)
    requires IsRun(maxConcurrency, steps, states) && k < |states|
    ensures Counted(states[k], maxConcurrency)
    decreases k
  {
    if k > 0 {
      RunKeepsCount(maxConcurrency, steps, states, k - 1);
      assert states[k - 1 + 1] == Apply(states[k - 1], steps[k - 1]);
      StepKeepsCount(states[k - 1], steps[k - 1], maxConcurrency);
    }
  }

  /** No decrement is ever clamped at zero. */
  lemma ClampsNeverBite(maxConcurrency: nat, steps: seq<Step>, states: seq<LaneState>, k: nat)
    requires IsRun(maxConcurrency, steps, states) && k < |steps|
    ensures steps[k].Start? || steps[k].Abandon? ==> states[k].queueDepth >= 1
    ensures steps[k].Finish? ==> states[k].inFlight >= 1
  {
    RunKeepsCount(maxConcurrency, steps, states, k);
    assert Enabled(states[k], steps[k]);
  }

  /** With no call left the counters are zero and the semaphore is full; with nothing handed over, every
      permit is free or in flight. */
  lemma IdleLaneIsFull(maxConcurrency: nat, steps: seq<Step>, states: seq<LaneState>, k: nat)
    requires IsRun(maxConcurrency, steps, states) && k < |states|
    ensures states[k].granted == {} ==> states[k].permits + states[k].inFlight == maxConcurrency
    ensures states[k].waiting + states[k].granted + states[k].running == {} ==>
              states[k].queueDepth == 0 && states[k].inFlight == 0 && states[k].permits == maxConcurrency
  {
    RunKeepsCount(maxConcurrency, steps, states, k);
    assert states[k].waiting + states[k].granted + states[k].running == {} ==>
        states[k].waiting == {} && states[k].granted == {} && states[k].running == {};
  }

  /** A call waits only while others hold every permit. */
  lemma WaitersGoOn(maxConcurrency: nat, steps: seq<Step>, states: seq<LaneState>, k: nat, call: nat)
    requires IsRun(maxConcurrency, steps, states) && k < |states| && call in states[k].waiting
    ensures Enabled(states[k], Grant(call)) || |states[k].granted| + |states[k].running| == maxConcurrency
  {
    RunKeepsCount(maxConcurrency, steps, states, k);
  }

  /** The peaks are the greatest values their counters have had. */
  lemma {:induction false} PeaksAreReached(maxConcurrency: nat, steps: seq<Step>, states: seq<LaneState>, k: nat)
    requires IsRun(maxConcurrency, steps, states) && k < |states|
    ensures forall j | 0 <= j <= k ::
              states[j].queueDepth <= states[k].peakQueueDepth && states[j].inFlight <= states[k].peakInFlight
    ensures exists j :: 0 <= j <= k && states[j].queueDepth == states[k].peakQueueDepth
    ensures exists j :: 0 <= j <= k && states[j].inFlight == states[k].peakInFlight
    decreases k
  {
    RunKeepsCount(maxConcurrency, steps, states, k);
    if k > 0 {
      PeaksAreReached(maxConcurrency, steps, states, k - 1);
      assert states[k - 1 + 1] == Apply(states[k - 1], steps[k - 1]);
    }
  }
}
