// What one call on the composer attachment cache has done when it returns
// (crates/notm-ui/src/attachment_io.rs), however the worker runs beside it: told by
// the states of a run before the call and after it, not by its steps.
module ComposerCalls {
  import opened MailText
  import opened ComposerCache

  /** Steps of the two sides, and no further call. */
  predicate AreSteps(steps: seq<Event>) {
    forall k | 0 <= k < |steps| :: steps[k].SubmitterStep? || steps[k].WorkerStep?
  }

  /** The state after a call and some steps. */
  function During(started: bool, before: seq<Event>, call: Event, steps: seq<Event>): State {
    Run(started, before + [call] + steps)
  }

  lemma RunUnfolds(started: bool, events: seq<Event>)
    requires events != []
    ensures Run(started, events) == Next(Run(started, events[..|events| - 1]), events[|events| - 1])
  {
    hide Next;
  }

  lemma EventsAre(before: seq<Event>, call: Event, steps: seq<Event>)
    ensures before + [call] + [] == before + [call] && (before + [call])[..|before|] == before
    ensures steps != [] ==>
      var events := before + [call] + steps;
      events[..|events| - 1] == before + [call] + steps[..|steps| - 1] && events[|events| - 1] == steps[|steps| - 1]
  {
  }

  lemma DuringUnfolds(started: bool, before: seq<Event>, call: Event, steps: seq<Event>)
    ensures During(started, before, call, []) == Next(Run(started, before), call)
    ensures steps != [] ==>
      During(started, before, call, steps)
        == Next(During(started, before, call, steps[..|steps| - 1]), steps[|steps| - 1])
    ensures Invariant(During(started, before, call, steps))
    ensures During(started, before, call, steps).started == started
  {
    hide Run, Next, Invariant;
    EventsAre(before, call, steps);
    RunUnfolds(started, before + [call]);
    RunUnfolds(started, before + [call] + steps);
    EveryRunKeepsInvariant(started, before + [call] + steps);
  }

  /** The worker has this request in its hands. */
  predicate IsTaken(s: State, flag: nat) {
    WorkerHolds(s) && s.worker.job.flag == flag
  }

  predicate IsTakenAfter(started: bool, before: seq<Event>, call: Event, steps: seq<Event>, n: nat, flag: nat)
    requires n <= |steps|
  {
    IsTaken(During(started, before, call, steps[..n]), flag)
  }

  /** The worker never had it while the call went on. */
  predicate IsNeverTaken(started: bool, before: seq<Event>, call: Event, steps: seq<Event>, flag: nat) {
    forall n: nat | n <= |steps| :: !IsTakenAfter(started, before, call, steps, n, flag)
  }

  lemma NeverTakenBefore(started: bool, before: seq<Event>, call: Event, steps: seq<Event>, flag: nat)
    requires steps != [] && IsNeverTaken(started, before, call, steps, flag)
    ensures IsNeverTaken(started, before, call, steps[..|steps| - 1], flag)
    ensures !IsTaken(During(started, before, call, steps), flag)
  {
    hide During, IsTaken;
    assert steps[..|steps|] == steps;
    assert !IsTakenAfter(started, before, call, steps, |steps|, flag);
    var front := steps[..|steps| - 1];
    forall n: nat | n <= |front|
      ensures !IsTakenAfter(started, before, call, front, n, flag)
    {
      assert !IsTakenAfter(started, before, call, steps, n, flag);
      assert front[..n] == steps[..n];
    }
  }

  // ---- Cancelling

  /** How far a cancel has come. */
  predicate IsCancelling(s: State) {
    match s.submitter
    case TakingActive(purpose) => purpose.ForCancel?
    case SettingFlag(_, purpose) => purpose.ForCancel? && s.active.None?
    case TakingPending => s.active.None?
    case CountingTaken => s.active.None? && s.pending.None?
    case Idle => s.active.None? && s.pending.None?
    case _ => false
  }

  /** No running request is left uncancelled. */
  predicate RunningIsCancelled(s: State) {
    s.worker.Running? || s.worker.Clearing? ==> s.worker.job.flag in s.cancelled
  }

  lemma CancelStep(s: State, e: Event)
    requires IsCancelling(s) && (e.SubmitterStep? || e.WorkerStep?)
    ensures IsCancelling(Next(s, e))
  {
  }

  lemma {:induction false} CancelGoesOn(started: bool, before: seq<Event>, steps: seq<Event>)
    requires Run(started, before).submitter.Idle? && AreSteps(steps)
    ensures IsCancelling(During(started, before, Cancel, steps))
    decreases |steps|
  {
    DuringUnfolds(started, before, Cancel, steps);
    hide During, Run;
    if steps != [] {
      hide Next, IsCancelling;
      CancelGoesOn(started, before, steps[..|steps| - 1]);
      CancelStep(During(started, before, Cancel, steps[..|steps| - 1]), steps[|steps| - 1]);
    }
  }

  lemma NothingActiveIsRunning(s: State)
    requires Invariant(s) && s.active.None? && !s.submitter.SettingFlag?
    ensures RunningIsCancelled(s)
  {
    hide Balanced, NoLostWakeup, ActiveIsLive, FlagsAreCounted, EndsAreOrdered;
  }

  /** When a cancel returns both slots are empty and whatever runs is cancelled. */
  lemma CancelEmptiesTheSlots(started: bool, before: seq<Event>, steps: seq<Event>)
    requires Run(started, before).submitter.Idle? && AreSteps(steps)
    requires Run(started, before + [Cancel] + steps).submitter.Idle?
    ensures var s := Run(started, before + [Cancel] + steps);
      s.pending.None? && s.active.None? && RunningIsCancelled(s)
  {
    CancelGoesOn(started, before, steps);
    DuringUnfolds(started, before, Cancel, steps);
    hide Run, Invariant, Next, RunningIsCancelled;
    NothingActiveIsRunning(During(started, before, Cancel, steps));
  }

  /** Still in the slot, or displaced from it. */
  predicate IsWaitingOr(s: State, job: Job, fate: Fate) {
    s.pending == Some(job) || (job.flag in s.fates && s.fates[job.flag] == fate)
  }

  lemma WaitingStep(s: State, e: Event, job: Job)
    requires IsWaitingOr(s, job, Coalesced) && IsCancelling(s) && (e.SubmitterStep? || e.WorkerStep?)
    requires !IsTaken(s, job.flag) && !IsTaken(Next(s, e), job.flag)
    ensures IsWaitingOr(Next(s, e), job, Coalesced)
  {
  }

  lemma {:induction false} WaitingGoesOn(started: bool, before: seq<Event>, steps: seq<Event>, job: Job)
    requires Run(started, before).submitter.Idle? && AreSteps(steps) && Run(started, before).pending == Some(job)
    requires IsNeverTaken(started, before, Cancel, steps, job.flag)
    ensures IsWaitingOr(During(started, before, Cancel, steps), job, Coalesced)
    decreases |steps|
  {
    DuringUnfolds(started, before, Cancel, steps);
    if steps == [] {
      hide Run;
    } else {
      hide *;
      var front := steps[..|steps| - 1];
      StepsAre(steps);
      NeverTakenBefore(started, before, Cancel, steps, job.flag);
      NeverTakenAtEnd(started, before, Cancel, front, job.flag);
      WaitingGoesOn(started, before, front, job);
      CancelGoesOn(started, before, front);
      WaitingStep(During(started, before, Cancel, front), steps[|steps| - 1], job);
    }
  }

  lemma NeverTakenAtEnd(started: bool, before: seq<Event>, call: Event, steps: seq<Event>, flag: nat)
    requires IsNeverTaken(started, before, call, steps, flag)
    ensures !IsTaken(During(started, before, call, steps), flag)
  {
    hide During, IsTaken;
    assert steps[..|steps|] == steps;
    assert !IsTakenAfter(started, before, call, steps, |steps|, flag);
  }

  lemma StepsAre(steps: seq<Event>)
    requires steps != [] && AreSteps(steps)
    ensures AreSteps(steps[..|steps| - 1])
    ensures var e := steps[|steps| - 1]; e.SubmitterStep? || e.WorkerStep?
  {
  }

  /** A request that waits when a cancel begins, and is not taken by the worker while
      it goes on, has been displaced and is never answered, however the run goes on. */
  lemma CancelledIsNeverAnswered(started: bool, before: seq<Event>, steps: seq<Event>, job: Job, more: seq<Event>)
    requires Run(started, before).submitter.Idle? && AreSteps(steps) && Run(started, before).pending == Some(job)
    requires Run(started, before + [Cancel] + steps).submitter.Idle?
    requires IsNeverTaken(started, before, Cancel, steps, job.flag)
    ensures var s := Run(started, before + [Cancel] + steps + more);
      job.flag in s.fates && s.fates[job.flag] == Coalesced
  {
    WaitingGoesOn(started, before, steps, job);
    CancelEmptiesTheSlots(started, before, steps);
    FatesAreFinal(started, before + [Cancel] + steps, more, job.flag);
    hide Run, IsNeverTaken, RunningIsCancelled;
  }

  // ---- Submitting

  /** The request is in the slot or with the worker, or has been answered. */
  predicate IsPlaced(s: State, job: Job) {
    || s.pending == Some(job) || (WorkerHolds(s) && s.worker.job == job)
    || (job.flag in s.fates && s.fates[job.flag] == Answered)
  }

  /** How far the submission of a request has come. */
  predicate IsSubmitting(s: State, job: Job) {
    match s.submitter
    case TakingActive(purpose) => purpose == ForSubmit(job.generation) && s.nextFlag == job.flag
    case SettingFlag(_, purpose) => purpose == ForSubmit(job.generation) && s.nextFlag == job.flag
    case SettingActive(generation) => generation == job.generation && s.nextFlag == job.flag
    case ReplacingPending(j) => j == job && s.nextFlag == job.flag + 1
    case CountingReplaced(j, _) => j == job && s.nextFlag == job.flag + 1 && IsPlaced(s, job)
    case SendingWake(j) => j == job && s.nextFlag == job.flag + 1 && IsPlaced(s, job)
    case RemovingPending(j) => j == job && s.nextFlag == job.flag + 1 && !s.started
    case ClearingActive(j) => j == job && s.nextFlag == job.flag + 1 && !s.started
    case Refusing(j) => j == job && s.nextFlag == job.flag + 1 && !s.started
    case Idle =>
      && s.nextFlag == job.flag + 1
      && if s.started then IsPlaced(s, job) else job.flag in s.fates && s.fates[job.flag] == Refused
    case _ => false
  }

  lemma PlacedStep(s: State, job: Job)
    requires Invariant(s) && IsPlaced(s, job)
    ensures IsPlaced(WorkerNext(s), job)
  {
    hide Balanced, NoLostWakeup, ActiveIsLive, FlagsAreCounted, ActiveIsTaken, EndsAreOrdered;
  }

  lemma WorkerKeepsFates(s: State, flag: nat)
    requires Invariant(s) && flag in s.fates && s.fates[flag] == Refused && !s.started
    ensures WorkerNext(s).fates == s.fates
  {
    hide Balanced, NoLostWakeup, ActiveIsLive, FlagsAreCounted, ActiveIsTaken, JobsAreDistinct;
  }

  lemma WorkerLeavesSubmitter(s: State)
    ensures WorkerNext(s).submitter == s.submitter && WorkerNext(s).nextFlag == s.nextFlag
    ensures WorkerNext(s).started == s.started
  {
  }

  lemma SubmitterSubmits(s: State, job: Job)
    requires Invariant(s) && IsSubmitting(s, job)
    ensures IsSubmitting(SubmitterNext(s), job)
  {
    hide Balanced, NoLostWakeup, ActiveIsLive, FlagsAreCounted, ActiveIsTaken, JobsAreDistinct, IsWatched;
  }

  lemma WorkerSubmits(s: State, job: Job)
    requires Invariant(s) && IsSubmitting(s, job)
    ensures IsSubmitting(WorkerNext(s), job)
  {
    WorkerLeavesSubmitter(s);
    if IsPlaced(s, job) {
      PlacedStep(s, job);
    }
    if job.flag in s.fates && s.fates[job.flag] == Refused && !s.started {
      WorkerKeepsFates(s, job.flag);
    }
    hide Invariant, WorkerNext, IsPlaced;
  }

  lemma SubmitStep(s: State, e: Event, job: Job)
    requires Invariant(s) && IsSubmitting(s, job) && (e.SubmitterStep? || e.WorkerStep?)
    ensures IsSubmitting(Next(s, e), job)
  {
    hide Invariant, IsSubmitting, SubmitterNext, WorkerNext;
    SubmitterSubmits(s, job);
    WorkerSubmits(s, job);
  }

  lemma {:induction false} SubmitGoesOn(started: bool, before: seq<Event>, generation: nat, steps: seq<Event>)
    requires Run(started, before).submitter.Idle? && AreSteps(steps)
    ensures var job := Job(generation, Run(started, before).nextFlag);
      IsSubmitting(During(started, before, Submit(generation), steps), job)
    decreases |steps|
  {
    DuringUnfolds(started, before, Submit(generation), steps);
    if steps == [] {
      hide Run;
    } else {
      hide *;
      var job := Job(generation, Run(started, before).nextFlag);
      var front := steps[..|steps| - 1];
      StepsAre(steps);
      DuringUnfolds(started, before, Submit(generation), front);
      SubmitGoesOn(started, before, generation, front);
      SubmitStep(During(started, before, Submit(generation), front), steps[|steps| - 1], job);
    }
  }

  /** When a submission returns, its request is the newest; with a worker it waits,
      is with the worker or has been answered, and without one it was refused. */
  lemma SubmitPlacesTheRequest(started: bool, before: seq<Event>, generation: nat, steps: seq<Event>)
    requires Run(started, before).submitter.Idle? && AreSteps(steps)
    requires Run(started, before + [Submit(generation)] + steps).submitter.Idle?
    ensures var (s, flag) := (Run(started, before + [Submit(generation)] + steps), Run(started, before).nextFlag);
      && s.nextFlag == flag + 1
      && if started then IsPlaced(s, Job(generation, flag)) else flag in s.fates && s.fates[flag] == Refused
  {
    SubmitGoesOn(started, before, generation, steps);
    DuringUnfolds(started, before, Submit(generation), steps);
    hide Run, Invariant, Next, IsPlaced;
  }

  // ---- Dropping

  predicate IsDropping(s: State) {
    match s.submitter
    case TakingActive(purpose) => purpose.ForDrop?
    case SettingFlag(_, purpose) => purpose.ForDrop? && s.active.None?
    case DroppingPending => s.active.None?
    case SendingShutdown => s.active.None? && s.pending.None?
    case Dropped => s.active.None? && s.pending.None?
    case _ => false
  }

  lemma DropStep(s: State, e: Event)
    requires IsDropping(s) && (e.SubmitterStep? || e.WorkerStep?)
    ensures IsDropping(Next(s, e))
  {
  }

  lemma {:induction false} DropGoesOn(started: bool, before: seq<Event>, steps: seq<Event>)
    requires Run(started, before).submitter.Idle? && AreSteps(steps)
    ensures IsDropping(During(started, before, Drop, steps))
    decreases |steps|
  {
    DuringUnfolds(started, before, Drop, steps);
    hide During, Run;
    if steps != [] {
      hide Next, IsDropping;
      DropGoesOn(started, before, steps[..|steps| - 1]);
      DropStep(During(started, before, Drop, steps[..|steps| - 1]), steps[|steps| - 1]);
    }
  }

  /** The service can be dropped only once, and is then gone: at the end both slots
      are empty and whatever still runs is cancelled. */
  lemma DropEmptiesTheSlots(started: bool, before: seq<Event>, steps: seq<Event>)
    requires Run(started, before).submitter.Idle? && AreSteps(steps)
    ensures var s := Run(started, before + [Drop] + steps);
      && !s.submitter.Idle?
      && (s.submitter.Dropped? ==> s.pending.None? && s.active.None? && RunningIsCancelled(s))
  {
    DropGoesOn(started, before, steps);
    DuringUnfolds(started, before, Drop, steps);
    hide Run, Invariant, Next, RunningIsCancelled;
    if During(started, before, Drop, steps).submitter.Dropped? {
      NothingActiveIsRunning(During(started, before, Drop, steps));
    }
  }
}
