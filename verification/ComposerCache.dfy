// The composer attachment cache service (crates/notm-ui/src/attachment_io.rs):
// one submitting side and one worker thread that share two mutexed slots,
// cancellation flags and a wake-up channel of capacity one. A step is one
// critical section, one flag exchange, one counter or one channel operation, so
// the runs below are all interleavings of the two.
module ComposerCache {
  import opened MailText

  /** A request with the flag that cancels it; a flag's number is its identity. */
  datatype Job = Job(generation: nat, flag: nat)

  datatype Command = Wake | Shutdown

  datatype Purpose = ForSubmit(generation: nat) | ForCancel | ForDrop

  /** Where the submitting side stands inside submit, cancel or the final drop. */
  datatype Submitter =
    | Idle
    | TakingActive(purpose: Purpose)
    | SettingFlag(flag: nat, purpose: Purpose)
    | SettingActive(generation: nat)
    | ReplacingPending(job: Job)
    | CountingReplaced(job: Job, replaced: bool)
    | SendingWake(job: Job)
    | RemovingPending(job: Job)
    | ClearingActive(job: Job)
    | Refusing(job: Job)
    | TakingPending
    | CountingTaken
    | DroppingPending
    | SendingShutdown
    | Dropped

  datatype Worker = Waiting | Draining | Running(job: Job) | Clearing(job: Job) | Responding(job: Job) | Exited

  /** How a request ended: answered by the worker, refused for want of one, or
      displaced before it ran, by a newer request, a cancellation or the end. */
  datatype Fate = Answered | Refused | Coalesced | Abandoned

  /** `fates` records, by flag, how each request ended; nothing reads it back. */
  datatype State = State(
    started: bool,
    submitter: Submitter,
    worker: Worker,
    queue: Option<Command>,
    active: Option<Job>,
    pending: Option<Job>,
    cancelled: set<nat>,
    nextFlag: nat,
    fates: map<nat, Fate>,
    submitted: nat,
    responded: nat,
    refused: nat,
    coalesced: nat,
    abandoned: nat,
    cancellations: nat)

  /** What can happen next: a call on the service, or one step of either side. */
  datatype Event = Submit(generation: nat) | Cancel | Drop | SubmitterStep | WorkerStep

  /** A service whose worker thread started, or could not. */
  function Initial(started: bool): State {
    State(started, Idle, if started then Waiting else Exited, None, None, None, {}, 0, map[], 0, 0, 0, 0, 0, 0)
  }

  // ---- Steps

  function PendingMeets(s: State, fate: Fate): map<nat, Fate> {
    if s.pending.Some? then s.fates[s.pending.value.flag := fate] else s.fates
  }

  function SubmitterNext(s: State): State {
    match s.submitter
    case Idle => s
    case Dropped => s
    case TakingActive(purpose) =>
      if s.active.Some? then s.(active := None, submitter := SettingFlag(s.active.value.flag, purpose))
      else s.(submitter := AfterCancelling(purpose))
    case SettingFlag(flag, purpose) =>
      s.(cancelled := s.cancelled + {flag},
         cancellations := s.cancellations + One(flag !in s.cancelled),
         submitter := AfterCancelling(purpose))
    case SettingActive(generation) =>
      var job := Job(generation, s.nextFlag);
      s.(active := Some(job), nextFlag := s.nextFlag + 1, submitter := ReplacingPending(job))
    case ReplacingPending(job) =>
      s.(pending := Some(job), submitter := CountingReplaced(job, s.pending.Some?), fates := PendingMeets(s, Coalesced))
    case CountingReplaced(job, replaced) =>
      s.(coalesced := s.coalesced + One(replaced), submitter := SendingWake(job))
    case SendingWake(job) =>
      if s.started then s.(queue := if s.queue.None? then Some(Wake) else s.queue, submitter := Idle)
      else s.(submitter := RemovingPending(job))
    case RemovingPending(job) =>
      s.(pending := if s.pending == Some(job) then None else s.pending, submitter := ClearingActive(job))
    case ClearingActive(job) =>
      s.(active := if s.active == Some(job) then None else s.active, submitter := Refusing(job))
    case Refusing(job) => s.(refused := s.refused + 1, fates := s.fates[job.flag := Refused], submitter := Idle)
    case TakingPending =>
      s.(pending := None, fates := PendingMeets(s, Coalesced),
         submitter := if s.pending.Some? then CountingTaken else Idle)
    case CountingTaken => s.(coalesced := s.coalesced + 1, submitter := Idle)
    case DroppingPending =>
      s.(pending := None, fates := PendingMeets(s, Abandoned), abandoned := s.abandoned + One(s.pending.Some?),
         submitter := SendingShutdown)
    case SendingShutdown =>
      s.(queue := if s.queue.None? && s.started then Some(Shutdown) else s.queue, submitter := Dropped)
  }

  function AfterCancelling(purpose: Purpose): Submitter {
    match purpose
    case ForSubmit(generation) => SettingActive(generation)
    case ForCancel => TakingPending
    case ForDrop => DroppingPending
  }

  /** Once the service is dropped its end of the channel is closed. */
  function WorkerNext(s: State): State {
    match s.worker
    case Exited => s
    case Waiting =>
      if s.queue == Some(Wake) then s.(queue := None, worker := Draining)
      else if s.queue == Some(Shutdown) then s.(queue := None, worker := Exited)
      else if s.submitter.Dropped? then s.(worker := Exited)
      else s
    case Draining =>
      if s.pending.Some? then s.(pending := None, worker := Running(s.pending.value)) else s.(worker := Waiting)
    case Running(job) => s.(worker := Clearing(job))
    case Clearing(job) =>
      s.(active := if s.active == Some(job) then None else s.active, worker := Responding(job))
    case Responding(job) => s.(responded := s.responded + 1, fates := s.fates[job.flag := Answered], worker := Draining)
  }

  function Next(s: State, e: Event): State {
    match e
    case Submit(generation) =>
      if s.submitter.Idle? then s.(submitted := s.submitted + 1, submitter := TakingActive(ForSubmit(generation)))
      else s
    case Cancel => if s.submitter.Idle? then s.(submitter := TakingActive(ForCancel)) else s
    case Drop => if s.submitter.Idle? then s.(submitter := TakingActive(ForDrop)) else s
    case SubmitterStep => SubmitterNext(s)
    case WorkerStep => WorkerNext(s)
  }

  /** The state after a run: every interleaving is some sequence of events. */
  function Run(started: bool, events: seq<Event>): State {
    if events == [] then Initial(started) else Next(Run(started, events[..|events| - 1]), events[|events| - 1])
  }

  // ---- Claims about single states

  predicate WorkerHolds(s: State) {
    s.worker.Running? || s.worker.Clearing? || s.worker.Responding?
  }

  /** A request still in the hands of the submitting side, or counted only next. */
  predicate SubmitterHolds(s: State) {
    match s.submitter
    case TakingActive(purpose) => purpose.ForSubmit?
    case SettingFlag(_, purpose) => purpose.ForSubmit?
    case SettingActive(_) => true
    case ReplacingPending(_) => true
    case CountingReplaced(_, replaced) => replaced
    case ClearingActive(_) => true
    case Refusing(_) => true
    case CountingTaken => true
    case _ => false
  }

  /** No request is lost or answered twice. */
  predicate Balanced(s: State) {
    s.submitted == s.responded + s.refused + s.coalesced + s.abandoned
                   + One(s.pending.Some?) + One(WorkerHolds(s)) + One(SubmitterHolds(s))
  }

  /** A waiting job has a worker on its way: a queued wake-up, a draining worker, or a submitter about to act. */
  predicate NoLostWakeup(s: State) {
    s.pending.Some? ==>
      || s.queue == Some(Wake)
      || s.worker.Draining? || WorkerHolds(s)
      || s.submitter.CountingReplaced? || s.submitter.SendingWake? || s.submitter.RemovingPending?
  }

  predicate IsNewest(s: State, job: Job) {
    job.flag + 1 == s.nextFlag
  }

  /** Only the newest request may run uncancelled. */
  predicate OthersAreCancelled(s: State) {
    && (s.pending.Some? && !IsNewest(s, s.pending.value) ==> s.pending.value.flag in s.cancelled)
    && ((s.worker.Running? || s.worker.Clearing?) && !IsNewest(s, s.worker.job) ==> s.worker.job.flag in s.cancelled)
  }

  /** The active slot names a request that is on its way or running, uncancelled. */
  predicate ActiveIsLive(s: State) {
    s.active.Some? ==>
      && IsNewest(s, s.active.value) && s.active.value.flag !in s.cancelled
      && (|| s.pending == s.active
          || ((s.worker.Running? || s.worker.Clearing?) && s.worker.job == s.active.value)
          || ((s.submitter.ReplacingPending? || s.submitter.ClearingActive?) && s.submitter.job == s.active.value))
  }

  predicate IsQuiet(s: State) {
    s.submitter.Idle? && s.queue.None? && (s.worker.Waiting? || !s.started)
  }

  // ---- The invariant

  /** An uncancelled job is the active one, or its flag is about to be set. */
  predicate IsWatched(s: State, job: Job) {
    job.flag in s.cancelled || s.active == Some(job)
    || (s.submitter.SettingFlag? && s.submitter.flag == job.flag)
  }

  predicate JobsAreDistinct(s: State) {
    && (s.pending.Some? ==> s.pending.value.flag < s.nextFlag)
    && (s.active.Some? ==> s.active.value.flag < s.nextFlag)
    && (WorkerHolds(s) ==>
          s.worker.job.flag < s.nextFlag && (s.pending.Some? ==> s.pending.value.flag != s.worker.job.flag))
    && (s.submitter.ReplacingPending? ==>
          && IsNewest(s, s.submitter.job) && s.active == Some(s.submitter.job)
          && (s.pending.Some? ==> s.pending.value.flag != s.submitter.job.flag)
          && (WorkerHolds(s) ==> s.worker.job.flag != s.submitter.job.flag))
  }

  predicate FlagsAreCounted(s: State) {
    && s.cancellations == |s.cancelled|
    && (forall flag | flag in s.cancelled :: flag < s.nextFlag)
    && (s.submitter.SettingFlag? ==> s.submitter.flag !in s.cancelled && s.submitter.flag + 1 == s.nextFlag)
  }

  predicate ActiveIsTaken(s: State) {
    (|| s.submitter.SettingFlag? || s.submitter.SettingActive? || s.submitter.TakingPending?
     || s.submitter.CountingTaken? || s.submitter.DroppingPending? || s.submitter.SendingShutdown?
     || s.submitter.Dropped? || s.submitter.Refusing?)
    ==> s.active.None?
  }

  /** Without a worker a job waits only until its submitter removes it; the end
      of the service is seen by the worker only after it is dropped. */
  predicate EndsAreOrdered(s: State) {
    && (!s.started ==>
          && s.worker.Exited? && s.queue.None?
          && (s.pending.Some? ==>
                && (s.submitter.CountingReplaced? || s.submitter.SendingWake? || s.submitter.RemovingPending?)
                && s.pending.value == s.submitter.job)
          && (s.submitter.CountingReplaced? || s.submitter.SendingWake? || s.submitter.RemovingPending? ==>
                s.pending.Some?))
    && (s.started ==> !s.submitter.RemovingPending? && !s.submitter.ClearingActive? && !s.submitter.Refusing?)
    && (s.started && s.worker.Exited? ==> s.submitter.Dropped? && s.queue.None?)
    && (s.queue == Some(Shutdown) ==> s.submitter.Dropped?)
    && (s.submitter.SendingShutdown? || s.submitter.Dropped? ==> s.pending.None?)
  }

  predicate Invariant(s: State) {
    && Balanced(s) && NoLostWakeup(s) && ActiveIsLive(s) && JobsAreDistinct(s) && FlagsAreCounted(s)
    && ActiveIsTaken(s) && EndsAreOrdered(s)
    && (s.pending.Some? ==> IsWatched(s, s.pending.value))
    && (s.worker.Running? || s.worker.Clearing? ==> IsWatched(s, s.worker.job))
  }

  lemma TakingActiveKeepsInvariant(s: State)
    requires Invariant(s) && s.submitter.TakingActive?
    ensures Invariant(SubmitterNext(s))
  {
  }

  lemma SettingFlagKeepsInvariant(s: State)
    requires Invariant(s) && s.submitter.SettingFlag?
    ensures Invariant(SubmitterNext(s))
  {
    assert |s.cancelled + {s.submitter.flag}| == |s.cancelled| + 1;
  }

  lemma SettingActiveKeepsInvariant(s: State)
    requires Invariant(s) && s.submitter.SettingActive?
    ensures Invariant(SubmitterNext(s))
  {
  }

  lemma QueueingKeepsInvariant(s: State)
    requires Invariant(s)
    requires s.submitter.ReplacingPending? || s.submitter.CountingReplaced? || s.submitter.SendingWake?
    ensures Invariant(SubmitterNext(s))
  {
    assert s.queue.Some? ==> s.queue.value.Wake? || s.queue.value.Shutdown?;
  }

  lemma RefusingKeepsInvariant(s: State)
    requires Invariant(s) && (s.submitter.RemovingPending? || s.submitter.ClearingActive? || s.submitter.Refusing?)
    ensures Invariant(SubmitterNext(s))
  {
  }

  lemma LeavingKeepsInvariant(s: State)
    requires Invariant(s)
    requires
      || s.submitter.TakingPending? || s.submitter.CountingTaken?
      || s.submitter.DroppingPending? || s.submitter.SendingShutdown?
    ensures Invariant(SubmitterNext(s))
  {
  }

  lemma NobodyActs(s: State)
    requires s.submitter.Idle? || s.submitter.Dropped?
    ensures SubmitterNext(s) == s
  {
  }

  lemma SubmitterKeepsInvariant(s: State)
    requires Invariant(s)
    ensures Invariant(SubmitterNext(s))
  {
    hide Invariant, SubmitterNext;
    match s.submitter
    case TakingActive(_) => TakingActiveKeepsInvariant(s);
    case SettingFlag(_, _) => SettingFlagKeepsInvariant(s);
    case SettingActive(_) => SettingActiveKeepsInvariant(s);
    case ReplacingPending(_) | CountingReplaced(_, _) | SendingWake(_) => QueueingKeepsInvariant(s);
    case RemovingPending(_) | ClearingActive(_) | Refusing(_) => RefusingKeepsInvariant(s);
    case TakingPending | CountingTaken | DroppingPending | SendingShutdown => LeavingKeepsInvariant(s);
    case Idle | Dropped => NobodyActs(s);
  }

  lemma TakingKeepsInvariant(s: State)
    requires Invariant(s) && (s.worker.Waiting? || s.worker.Draining?)
    ensures Invariant(WorkerNext(s))
  {
    assert s.queue.Some? ==> s.queue.value.Wake? || s.queue.value.Shutdown?;
  }

  lemma WorkerKeepsInvariant(s: State)
    requires Invariant(s)
    ensures Invariant(WorkerNext(s))
  {
    if s.worker.Waiting? || s.worker.Draining? {
      TakingKeepsInvariant(s);
    }
  }

  lemma CallsKeepInvariant(s: State, e: Event)
    requires Invariant(s) && (e.Submit? || e.Cancel? || e.Drop?)
    ensures Invariant(Next(s, e))
  {
  }

  // ---- What becomes of each request

  /** Some side still has the request with this flag. */
  predicate InHand(s: State, flag: nat) {
    || (s.pending.Some? && s.pending.value.flag == flag)
    || (WorkerHolds(s) && s.worker.job.flag == flag)
    || ((s.submitter.ReplacingPending? || s.submitter.ClearingActive? || s.submitter.Refusing?)
        && s.submitter.job.flag == flag)
  }

  /** Every request is in somebody's hands or has met one fate, never both; a
      displaced one had its flag set before, and a service refuses if and
      only if it has no worker to answer. */
  predicate IsAccounted(s: State, flag: nat) {
    && (flag < s.nextFlag <==> flag in s.fates || InHand(s, flag))
    && (InHand(s, flag) ==> flag !in s.fates)
    && (flag in s.fates && (s.fates[flag].Coalesced? || s.fates[flag].Abandoned?) ==> flag in s.cancelled)
    && (flag in s.fates && s.fates[flag].Refused? ==> !s.started)
    && (flag in s.fates && s.fates[flag].Answered? ==> s.started)
  }

  /** A fate once met is not revised. */
  predicate FateIsKept(s: State, t: State, flag: nat) {
    flag in s.fates ==> flag in t.fates && t.fates[flag] == s.fates[flag]
  }

  lemma SubmittingKeepsAccount(s: State, flag: nat)
    requires Invariant(s) && IsAccounted(s, flag)
    requires
      || s.submitter.TakingActive? || s.submitter.SettingFlag?
      || s.submitter.SettingActive? || s.submitter.ReplacingPending?
    ensures IsAccounted(SubmitterNext(s), flag) && FateIsKept(s, SubmitterNext(s), flag)
  {
    hide FlagsAreCounted, Balanced, NoLostWakeup;
  }

  lemma RefusingKeepsAccount(s: State, flag: nat)
    requires Invariant(s) && IsAccounted(s, flag)
    requires s.submitter.RemovingPending? || s.submitter.ClearingActive? || s.submitter.Refusing?
    ensures IsAccounted(SubmitterNext(s), flag) && FateIsKept(s, SubmitterNext(s), flag)
  {
    hide Balanced, NoLostWakeup, ActiveIsLive;
  }

  lemma SubmitterKeepsAccount(s: State, flag: nat)
    requires Invariant(s) && IsAccounted(s, flag)
    ensures IsAccounted(SubmitterNext(s), flag) && FateIsKept(s, SubmitterNext(s), flag)
  {
    match s.submitter
    case TakingActive(_) | SettingFlag(_, _) | SettingActive(_) | ReplacingPending(_) =>
      SubmittingKeepsAccount(s, flag);
    case RemovingPending(_) | ClearingActive(_) | Refusing(_) => RefusingKeepsAccount(s, flag);
    case _ =>
      hide Balanced, NoLostWakeup;
  }

  lemma WorkerKeepsAccount(s: State, flag: nat)
    requires Invariant(s) && IsAccounted(s, flag)
    ensures IsAccounted(WorkerNext(s), flag) && FateIsKept(s, WorkerNext(s), flag)
  {
    hide FlagsAreCounted, ActiveIsLive, ActiveIsTaken, Balanced, NoLostWakeup;
  }

  lemma StepKeepsAccount(s: State, e: Event, flag: nat)
    requires Invariant(s) && IsAccounted(s, flag)
    ensures IsAccounted(Next(s, e), flag) && FateIsKept(s, Next(s, e), flag)
  {
    hide Invariant, SubmitterNext, WorkerNext;
    match e
    case SubmitterStep => SubmitterKeepsAccount(s, flag);
    case WorkerStep => WorkerKeepsAccount(s, flag);
    case _ =>
  }

  // ---- All runs

  lemma StepKeepsInvariant(s: State, e: Event)
    requires Invariant(s)
    ensures Invariant(Next(s, e)) && Next(s, e).started == s.started
  {
    match e
    case SubmitterStep =>
      hide Invariant;
      SubmitterKeepsInvariant(s);
    case WorkerStep =>
      hide Invariant;
      WorkerKeepsInvariant(s);
    case _ =>
      CallsKeepInvariant(s, e);
  }

  lemma {:induction false} EveryRunKeepsInvariant(started: bool, events: seq<Event>)
    ensures Invariant(Run(started, events)) && Run(started, events).started == started
  {
    if events != [] {
      hide Invariant;
      hide Next;
      EveryRunKeepsInvariant(started, events[..|events| - 1]);
      StepKeepsInvariant(Run(started, events[..|events| - 1]), events[|events| - 1]);
    }
  }

  lemma {:induction false} EveryRunKeepsAccount(started: bool, events: seq<Event>, flag: nat)
    ensures IsAccounted(Run(started, events), flag)
  {
    if events != [] {
      hide Invariant;
      hide Next;
      EveryRunKeepsInvariant(started, events[..|events| - 1]);
      EveryRunKeepsAccount(started, events[..|events| - 1], flag);
      StepKeepsAccount(Run(started, events[..|events| - 1]), events[|events| - 1], flag);
    }
  }

  // ---- Progress

  function SubmitterWork(submitter: Submitter): nat {
    match submitter
    case Idle => 0
    case Dropped => 0
    case CountingTaken => 1
    case Refusing(_) => 1
    case TakingPending => 2
    case ClearingActive(_) => 2
    case RemovingPending(_) => 3
    case SendingShutdown => 3
    case SendingWake(_) => 4
    case DroppingPending => 4
    case CountingReplaced(_, _) => 5
    case ReplacingPending(_) => 10
    case SettingActive(_) => 11
    case SettingFlag(_, _) => 12
    case TakingActive(_) => 13
  }

  function WorkerWork(worker: Worker): nat {
    match worker
    case Exited => 0
    case Waiting => 1
    case Draining => 2
    case Responding(_) => 3
    case Clearing(_) => 4
    case Running(_) => 5
  }

  /** A bound on the steps left until the next call. */
  function Work(s: State): nat {
    SubmitterWork(s.submitter) + WorkerWork(s.worker) + 4 * One(s.pending.Some?) + 2 * One(s.queue.Some?)
  }

  lemma SubmitterStepsAreWork(s: State)
    ensures Work(SubmitterNext(s)) < Work(s) || SubmitterNext(s) == s
  {
    if s.submitter.Idle? || s.submitter.Dropped? {
      assert SubmitterNext(s) == s;
    } else {
      assert Work(SubmitterNext(s)) < Work(s);
    }
  }

  lemma WorkerStepsAreWork(s: State)
    ensures Work(WorkerNext(s)) < Work(s) || WorkerNext(s) == s
  {
    if s.worker.Exited? || (s.worker.Waiting? && s.queue.None? && !s.submitter.Dropped?) {
      assert WorkerNext(s) == s;
    } else {
      assert s.queue.Some? ==> s.queue.value.Wake? || s.queue.value.Shutdown?;
      assert Work(WorkerNext(s)) < Work(s);
    }
  }

  predicate IsStuck(s: State) {
    Next(s, SubmitterStep) == s && Next(s, WorkerStep) == s
  }

  predicate IsOver(s: State) {
    s.submitter.Dropped? && s.worker.Exited?
  }

  lemma OnlyRestIsStuck(s: State)
    requires Invariant(s)
    ensures IsStuck(s) <==> IsQuiet(s) || IsOver(s)
  {
    assert s.queue.Some? ==> s.queue.value.Wake? || s.queue.value.Shutdown?;
  }

  /** A schedule of internal steps, each of which gets something done. */
  predicate IsBusy(s: State, schedule: seq<Event>)
    decreases |schedule|
  {
    schedule == [] ||
    (&& (schedule[0].SubmitterStep? || schedule[0].WorkerStep?)
     && Next(s, schedule[0]) != s
     && IsBusy(Next(s, schedule[0]), schedule[1..]))
  }

  lemma {:induction false} EveryScheduleEnds(s: State, schedule: seq<Event>)
    requires IsBusy(s, schedule)
    ensures |schedule| <= Work(s)
    decreases |schedule|
  {
    if schedule != [] {
      hide SubmitterNext, WorkerNext, Work;
      EveryScheduleEnds(Next(s, schedule[0]), schedule[1..]);
      SubmitterStepsAreWork(s);
      WorkerStepsAreWork(s);
    }
  }

  // ---- What the service promises

  /** In every interleaving: no wake-up is lost, every request but the newest is
      cancelled, the active slot names a live one, and the counters balance. */
  lemma EveryRunIsSafe(started: bool, events: seq<Event>)
    ensures var s := Run(started, events);
      Balanced(s) && NoLostWakeup(s) && OthersAreCancelled(s) && ActiveIsLive(s)
  {
    EveryRunKeepsInvariant(started, events);
  }

  /** However a run goes on, a request that has met its fate keeps it. */
  lemma {:induction false} FatesAreFinal(started: bool, events: seq<Event>, more: seq<Event>, flag: nat)
    ensures FateIsKept(Run(started, events), Run(started, events + more), flag)
    decreases |more|
  {
    if more == [] {
      assert events + more == events;
    } else {
      hide Invariant, IsAccounted, Next;
      var k := |more| - 1;
      assert (events + more)[..|events| + k] == events + more[..k];
      FatesAreFinal(started, events, more[..k], flag);
      EveryRunKeepsInvariant(started, events + more[..k]);
      EveryRunKeepsAccount(started, events + more[..k], flag);
      StepKeepsAccount(Run(started, events + more[..k]), more[k], flag);
    }
  }

  /** A service that can go no further is at rest with empty slots, or over with
      its worker gone; every request has met its fate, and one that was never
      cancelled was answered, unless there was no worker to do it. */
  lemma RestLeavesNothingBehind(started: bool, events: seq<Event>, flag: nat)
    requires IsStuck(Run(started, events))
    ensures var s := Run(started, events);
      && (IsQuiet(s) || IsOver(s))
      && s.pending.None? && s.active.None? && s.queue.None?
      && s.submitted == s.responded + s.refused + s.coalesced + s.abandoned
      && (flag < s.nextFlag <==> flag in s.fates)
      && (flag < s.nextFlag && flag !in s.cancelled ==> s.fates[flag] == if started then Answered else Refused)
  {
    var s := Run(started, events);
    EveryRunKeepsInvariant(started, events);
    EveryRunKeepsAccount(started, events, flag);
    OnlyRestIsStuck(s);
    hide IsStuck, Run, Next, SubmitterNext, WorkerNext;
    var fate := if flag in s.fates then s.fates[flag] else Refused;
    assert fate.Answered? || fate.Refused? || fate.Coalesced? || fate.Abandoned?;
  }
}
