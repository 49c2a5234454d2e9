// The draft autosave controller (crates/notm-ui/src/draft_autosave.rs): edits
// are debounced into one pending request, boundary flushes queue urgent ones,
// at most one write runs, and flush callbacks wait for the write that serves
// them. The controller lives on one thread, but callbacks may call it again, so
// what is left of an interrupted `finish_write` is kept here as a list of tasks.
module DraftAutosave {
  import opened MailText

  datatype Action = Persist(draft: string) | Clear

  datatype Edit = Edit(generation: nat, action: Action)

  datatype Request = Request(id: nat, edit: Edit)

  /** A flush callback, known by its number, and the request it waits for. */
  datatype Waiter = Waiter(requestId: nat, callback: nat)

  datatype Outcome = Done | Failed

  /** The fields of the controller; `debounce` says whether a timer is armed. */
  datatype Controller = Controller(
    pending: Option<Request>,
    pendingReady: bool,
    urgent: seq<Request>,
    active: Option<Request>,
    debounce: bool,
    nextId: nat,
    latestId: nat,
    waiters: seq<Waiter>)

  // ---- Operations

  function Listed(request: Option<Request>): seq<Request> {
    if request.Some? then [request.value] else []
  }

  function InFlight(c: Controller): seq<Request> {
    Listed(c.active) + c.urgent
  }

  function IdOf(requests: seq<Request>, edit: Edit): Option<nat> {
    if requests == [] then None
    else if requests[0].edit == edit then Some(requests[0].id)
    else IdOf(requests[1..], edit)
  }

  function Scheduled(c: Controller, edit: Edit): Controller {
    c.(pending := Some(Request(c.nextId, edit)), pendingReady := false, debounce := true,
       nextId := c.nextId + 1, latestId := c.nextId)
  }

  /** The request that serves a flush, and the controller after queueing it. */
  function QueuedFlush(c: Controller, edit: Edit): (nat, Controller) {
    if IdOf(InFlight(c), edit).Some? then (IdOf(InFlight(c), edit).value, c)
    else if c.pending.Some? && c.pending.value.edit == edit then
      (c.pending.value.id, c.(pending := None, pendingReady := false, urgent := c.urgent + [c.pending.value]))
    else
      var keeps := c.pending.Some? && c.pending.value.edit.generation > edit.generation;
      (c.nextId,
       c.(pending := if keeps then c.pending else None,
          pendingReady := if c.pending.Some? then keeps else c.pendingReady,
          urgent := c.urgent + [Request(c.nextId, edit)],
          nextId := c.nextId + 1, latestId := c.nextId))
  }

  function Started(c: Controller): Controller {
    if c.active.Some? then c
    else if c.urgent != [] then c.(active := Some(c.urgent[0]), urgent := c.urgent[1..])
    else if !c.pendingReady then c
    else c.(active := c.pending, pending := None, pendingReady := false)
  }

  function Flushed(c: Controller, edit: Edit, callback: nat): Controller {
    var (id, queued) := QueuedFlush(c.(debounce := false), edit);
    Started(queued.(waiters := queued.waiters + [Waiter(id, callback)]))
  }

  function TimerFired(c: Controller): Controller {
    Started(c.(debounce := false, pendingReady := true))
  }

  function Served(waiters: seq<Waiter>, id: nat, served: bool): seq<Waiter> {
    if waiters == [] then []
    else Served(waiters[..|waiters| - 1], id, served)
         + if (waiters[|waiters| - 1].requestId == id) == served then [waiters[|waiters| - 1]] else []
  }

  /** The write of the active request has ended; its waiters leave the list. */
  function Ended(c: Controller): Controller
    requires c.active.Some?
  {
    c.(active := None, waiters := Served(c.waiters, c.active.value.id, false))
  }

  /** Told by the ended write: no request was numbered after it. */
  predicate IsLatest(c: Controller, request: Request) {
    request.id >= c.latestId
  }

  class AutosaveState {
    var pending: Option<Request>
    var pendingReady: bool
    var urgent: seq<Request>
    var active: Option<Request>
    var debounce: bool
    var nextId: nat
    var latestId: nat
    var waiters: seq<Waiter>

    constructor ()
      ensures Value() == Empty()
    {
      pending, pendingReady, urgent, active := None, false, [], None;
      debounce, nextId, latestId, waiters := false, 1, 0, [];
    }

    function Value(): Controller
      reads this
    {
      Controller(pending, pendingReady, urgent, active, debounce, nextId, latestId, waiters)
    }

    method NextRequestId() returns (id: nat)
      modifies this`nextId, this`latestId
      ensures id == old(nextId) && nextId == id + 1 && latestId == id
    {
      id := nextId;
      nextId := nextId + 1;
      latestId := id;
    }

    method Schedule(edit: Edit)
      modifies this
      ensures Value() == Scheduled(old(Value()), edit)
    {
      debounce := false;
      var id := NextRequestId();
      pending := Some(Request(id, edit));
      pendingReady := false;
      debounce := true;
    }

    method FindInFlight(edit: Edit) returns (id: Option<nat>)
      ensures id == IdOf(InFlight(Value()), edit)
    {
      var requests := Listed(active) + urgent;
      for i := 0 to |requests|
        invariant IdOf(requests, edit) == IdOf(requests[i..], edit)
      {
        if requests[i].edit == edit {
          return Some(requests[i].id);
        }
      }
      id := None;
    }

    method QueueFlush(edit: Edit) returns (id: nat)
      modifies this
      ensures (id, Value()) == QueuedFlush(old(Value()), edit)
    {
      var found := FindInFlight(edit);
      if found.Some? {
        return found.value;
      }
      if pending.Some? {
        var request := pending.value;
        pending, pendingReady := None, false;
        if request.edit == edit {
          urgent := urgent + [request];
          return request.id;
        }
        if request.edit.generation > edit.generation {
          pending, pendingReady := Some(request), true;
        }
      }
      id := NextRequestId();
      urgent := urgent + [Request(id, edit)];
    }

    method StartPendingWrite() returns (request: Option<Request>)
      modifies this`active, this`urgent, this`pending, this`pendingReady
      ensures Value() == Started(old(Value()))
      ensures request == if old(active).Some? then None else active
    {
      if active.Some? {
        return None;
      }
      if urgent != [] {
        request := Some(urgent[0]);
        urgent := urgent[1..];
      } else {
        if !pendingReady {
          return None;
        }
        request := pending;
        pending, pendingReady := None, false;
      }
      active := request;
    }

    method Flush(edit: Edit, callback: nat) returns (request: Option<Request>)
      modifies this
      ensures Value() == Flushed(old(Value()), edit, callback)
    {
      debounce := false;
      var id := QueueFlush(edit);
      waiters := waiters + [Waiter(id, callback)];
      request := StartPendingWrite();
    }

    method FireTimer() returns (request: Option<Request>)
      modifies this
      ensures Value() == TimerFired(old(Value()))
    {
      debounce, pendingReady := false, true;
      request := StartPendingWrite();
    }

    /** Up to the first callback; a stale identifier changes nothing. */
    method FinishWrite(id: nat) returns (ready: seq<Waiter>, isLatest: bool)
      modifies this`active, this`waiters
      ensures old(active).Some? && old(active).value.id == id ==>
        && Value() == Ended(old(Value()))
        && ready == Served(old(waiters), id, true)
        && isLatest == IsLatest(old(Value()), old(active).value)
      ensures !(old(active).Some? && old(active).value.id == id) ==> Value() == old(Value()) && ready == []
    {
      ready, isLatest := [], false;
      if active.None? || active.value.id != id {
        return;
      }
      active := None;
      isLatest := id >= latestId;
      var waiting := [];
      for i := 0 to |waiters|
        invariant ready == Served(waiters[..i], id, true) && waiting == Served(waiters[..i], id, false)
      {
        assert waiters[..i + 1][..i] == waiters[..i];
        if waiters[i].requestId == id {
          ready := ready + [waiters[i]];
        } else {
          waiting := waiting + [waiters[i]];
        }
      }
      assert waiters[..|waiters|] == waiters;
      waiters := waiting;
    }
  }

  function Empty(): Controller {
    Controller(None, false, [], None, false, 1, 0, [])
  }

  // ---- Runs

  /** What an interrupted finish has left to do: a callback, or the next start. */
  datatype Task = Call(callback: nat, request: Request, outcome: Outcome) | StartNext

  datatype Ending = Ending(request: Request, outcome: Outcome)

  /** The controller, its unfinished finishes, innermost first, and the history:
      flushes by callback, all edits, writes started, writes ended, calls made. */
  datatype State = State(
    c: Controller,
    tasks: seq<Task>,
    asked: seq<Edit>,
    requested: seq<Edit>,
    written: seq<Request>,
    ended: seq<Ending>,
    called: seq<Task>)

  /** A call on the controller, which a callback may make too, or the main loop
      firing the timer, learning that the write ended, or going on with a finish. */
  datatype Event = Schedule(edit: Edit) | Flush(edit: Edit) | TimerFires | WriteEnds(outcome: Outcome) | TaskRuns

  function Calls(ready: seq<Waiter>, request: Request, outcome: Outcome): (tasks: seq<Task>)
    ensures |tasks| == |ready|
  {
    if ready == [] then []
    else Calls(ready[..|ready| - 1], request, outcome) + [Call(ready[|ready| - 1].callback, request, outcome)]
  }

  /** Takes up a controller that may have started a write. */
  function WithStart(s: State, c: Controller): State {
    s.(c := c, written := if s.c.active.None? && c.active.Some? then s.written + [c.active.value] else s.written)
  }

  function Next(s: State, e: Event): State {
    match e
    case Schedule(edit) => s.(c := Scheduled(s.c, edit), requested := s.requested + [edit])
    case Flush(edit) =>
      WithStart(s, Flushed(s.c, edit, |s.asked|)).(asked := s.asked + [edit], requested := s.requested + [edit])
    case TimerFires => if s.c.debounce then WithStart(s, TimerFired(s.c)) else s
    case WriteEnds(outcome) => if s.c.active.Some? then AfterWrite(s, outcome) else s
    case TaskRuns =>
      if s.tasks == [] then s
      else if s.tasks[0].Call? then s.(tasks := s.tasks[1..], called := s.called + [s.tasks[0]])
      else WithStart(s, Started(s.c)).(tasks := s.tasks[1..])
  }

  function AfterWrite(s: State, outcome: Outcome): State
    requires s.c.active.Some?
  {
    var request := s.c.active.value;
    s.(c := Ended(s.c),
       tasks := Calls(Served(s.c.waiters, request.id, true), request, outcome) + [StartNext] + s.tasks,
       ended := s.ended + [Ending(request, outcome)])
  }

  function Run(events: seq<Event>): State {
    if events == [] then State(Empty(), [], [], [], [], [], [])
    else Next(Run(events[..|events| - 1]), events[|events| - 1])
  }

  // ---- No edit is stranded

  predicate NothingIsStranded(c: Controller) {
    c.pending.Some? ==> c.pendingReady || c.debounce
  }

  /** A flush already served by a write on its way returns early: the timer it
      stopped must not have been the only thing to wake a pending edit. */
  predicate StrandsNothing(c: Controller, e: Event) {
    e.Flush? && IdOf(InFlight(c), e.edit).Some? && c.pending.Some? ==> c.pendingReady
  }

  predicate TimersAreTrue(c: Controller) {
    && (c.debounce ==> c.pending.Some? && !c.pendingReady)
    && (c.pendingReady ==> c.pending.Some?)
  }

  predicate IsRunnable(c: Controller) {
    c.urgent != [] || (c.pending.Some? && c.pendingReady)
  }

  /** Runnable work waits only for a write, or for a finish to start it. */
  predicate RunnableIsTaken(s: State) {
    && (s.tasks != [] ==> s.tasks[|s.tasks| - 1].StartNext?)
    && (s.c.active.None? && s.tasks == [] ==> !IsRunnable(s.c))
  }

  /** The step strands a pending edit exactly if it is the early return past one. */
  predicate StrandsOnlyThen(s: State, e: Event) {
    NothingIsStranded(s.c) ==> (NothingIsStranded(Next(s, e).c) <==> StrandsNothing(s.c, e))
  }

  lemma SchedulingKeepsTimers(s: State, edit: Edit)
    requires TimersAreTrue(s.c) && RunnableIsTaken(s)
    ensures var t := Next(s, Schedule(edit));
      TimersAreTrue(t.c) && RunnableIsTaken(t) && StrandsOnlyThen(s, Schedule(edit))
  {
  }

  lemma FlushingKeepsTimers(s: State, edit: Edit)
    requires TimersAreTrue(s.c) && RunnableIsTaken(s)
    ensures var t := Next(s, Flush(edit));
      TimersAreTrue(t.c) && RunnableIsTaken(t) && StrandsOnlyThen(s, Flush(edit))
  {
    hide IdOf;
    assert InFlight(s.c.(debounce := false)) == InFlight(s.c);
    hide InFlight;
  }

  lemma FiringKeepsTimers(s: State)
    requires TimersAreTrue(s.c) && RunnableIsTaken(s)
    ensures var t := Next(s, TimerFires);
      TimersAreTrue(t.c) && RunnableIsTaken(t) && StrandsOnlyThen(s, TimerFires)
  {
  }

  lemma EndingKeepsTimers(s: State, outcome: Outcome)
    requires TimersAreTrue(s.c) && RunnableIsTaken(s)
    ensures var t := Next(s, WriteEnds(outcome));
      TimersAreTrue(t.c) && RunnableIsTaken(t) && StrandsOnlyThen(s, WriteEnds(outcome))
  {
    hide Served, Calls;
  }

  lemma TaskKeepsTimers(s: State)
    requires TimersAreTrue(s.c) && RunnableIsTaken(s)
    ensures var t := Next(s, TaskRuns);
      TimersAreTrue(t.c) && RunnableIsTaken(t) && StrandsOnlyThen(s, TaskRuns)
  {
  }

  lemma StepKeepsTimers(s: State, e: Event)
    requires TimersAreTrue(s.c) && RunnableIsTaken(s)
    ensures TimersAreTrue(Next(s, e).c) && RunnableIsTaken(Next(s, e))
    ensures NothingIsStranded(s.c) ==> (NothingIsStranded(Next(s, e).c) <==> StrandsNothing(s.c, e))
  {
    hide TimersAreTrue, RunnableIsTaken, NothingIsStranded, StrandsNothing, Next;
    match e
    case Schedule(edit) => SchedulingKeepsTimers(s, edit);
    case Flush(edit) => FlushingKeepsTimers(s, edit);
    case TimerFires => FiringKeepsTimers(s);
    case WriteEnds(outcome) => EndingKeepsTimers(s, outcome);
    case TaskRuns => TaskKeepsTimers(s);
  }

  // ---- Callbacks

  function Queue(c: Controller): seq<Request> {
    InFlight(c) + Listed(c.pending)
  }

  ghost predicate IdsAreUnique(c: Controller) {
    && (forall r | r in Queue(c) :: r.id < c.nextId)
    && (forall r, q | r in Queue(c) && q in Queue(c) && r.id == q.id :: r == q)
  }

  /** The request this callback waits for, carrying exactly what its flush asked. */
  predicate IsServed(c: Controller, asked: seq<Edit>, w: Waiter) {
    w.callback < |asked| && Request(w.requestId, asked[w.callback]) in InFlight(c)
  }

  ghost predicate WaitersAreServed(c: Controller, asked: seq<Edit>) {
    forall w | w in c.waiters :: IsServed(c, asked, w)
  }

  lemma FoundIsListed(requests: seq<Request>, edit: Edit)
    requires IdOf(requests, edit).Some?
    ensures Request(IdOf(requests, edit).value, edit) in requests
  {
    if requests[0].edit != edit {
      FoundIsListed(requests[1..], edit);
    } else {
      assert requests[0] == Request(requests[0].id, edit);
    }
  }

  lemma QueueHolds(c: Controller, r: Request)
    ensures r in InFlight(c) <==> c.active == Some(r) || r in c.urgent
    ensures r in Queue(c) <==> c.active == Some(r) || r in c.urgent || c.pending == Some(r)
  {
  }

  lemma IdsOfFewer(c: Controller, d: Controller)
    requires IdsAreUnique(c) && c.nextId <= d.nextId && forall r | r in Queue(d) :: r in Queue(c)
    ensures IdsAreUnique(d)
  {
    hide Queue;
  }

  lemma IdsOfOneMore(c: Controller, d: Controller, edit: Edit)
    requires IdsAreUnique(c) && d.nextId == c.nextId + 1
    requires forall r | r in Queue(d) :: r in Queue(c) || r == Request(c.nextId, edit)
    ensures IdsAreUnique(d)
  {
    hide Queue;
  }

  /** Neither promoting nor dropping the pending request touches those in flight. */
  lemma QueueingHolds(c: Controller, edit: Edit, r: Request)
    requires IdOf(InFlight(c), edit).None?
    ensures var (id, d) := QueuedFlush(c, edit);
      && (r in InFlight(c) ==> r in InFlight(d))
      && (r in Queue(d) ==> r in Queue(c) || (d.nextId == c.nextId + 1 && r == Request(c.nextId, edit)))
  {
    var d := QueuedFlush(c, edit).1;
    QueueHolds(c, r);
    QueueHolds(d, r);
    hide InFlight, Queue, IdOf;
  }

  lemma QueuedIsInFlight(c: Controller, edit: Edit)
    requires IdOf(InFlight(c), edit).None?
    ensures var (id, d) := QueuedFlush(c, edit);
      Request(id, edit) in d.urgent && d.waiters == c.waiters && (d.nextId == c.nextId || d.nextId == c.nextId + 1)
  {
    hide InFlight, IdOf;
    var (id, d) := QueuedFlush(c, edit);
    assert d.urgent[|d.urgent| - 1] == Request(id, edit);
  }

  lemma QueueingServes(c: Controller, edit: Edit)
    requires IdsAreUnique(c)
    ensures var (id, d) := QueuedFlush(c, edit);
      && IdsAreUnique(d) && Request(id, edit) in InFlight(d)
      && (forall r | r in InFlight(c) :: r in InFlight(d)) && d.waiters == c.waiters
  {
    hide IdsAreUnique, InFlight, Queue, IdOf;
    var (id, d) := QueuedFlush(c, edit);
    if IdOf(InFlight(c), edit).Some? {
      FoundIsListed(InFlight(c), edit);
    } else {
      QueuedIsInFlight(c, edit);
      hide QueuedFlush;
      QueueHolds(d, Request(id, edit));
      forall r: Request
        ensures r in InFlight(c) ==> r in InFlight(d)
        ensures r in Queue(d) ==> r in Queue(c) || (d.nextId == c.nextId + 1 && r == Request(c.nextId, edit))
      {
        QueueingHolds(c, edit, r);
      }
      if d.nextId == c.nextId {
        IdsOfFewer(c, d);
      } else {
        IdsOfOneMore(c, d, edit);
      }
    }
  }

  lemma StartingHolds(c: Controller, r: Request)
    requires c.pendingReady ==> c.pending.Some?
    ensures r in InFlight(c) ==> r in InFlight(Started(c))
    ensures r in Queue(Started(c)) ==> r in Queue(c)
  {
    QueueHolds(c, r);
    QueueHolds(Started(c), r);
    hide InFlight, Queue;
  }

  lemma StartingServes(c: Controller)
    requires IdsAreUnique(c) && TimersAreTrue(c)
    ensures IdsAreUnique(Started(c)) && Started(c).waiters == c.waiters
    ensures forall r | r in InFlight(c) :: r in InFlight(Started(c))
  {
    hide IdsAreUnique, InFlight, Queue;
    forall r: Request
      ensures r in InFlight(c) ==> r in InFlight(Started(c))
      ensures r in Queue(Started(c)) ==> r in Queue(c)
    {
      StartingHolds(c, r);
    }
    IdsOfFewer(c, Started(c));
  }

  lemma QueueingKeepsTimers(c: Controller, edit: Edit)
    requires TimersAreTrue(c)
    ensures TimersAreTrue(QueuedFlush(c.(debounce := false), edit).1)
  {
    hide IdOf, InFlight;
  }

  lemma FlushServes(c: Controller, edit: Edit, asked: seq<Edit>)
    requires IdsAreUnique(c) && TimersAreTrue(c) && WaitersAreServed(c, asked)
    ensures IdsAreUnique(Flushed(c, edit, |asked|)) && WaitersAreServed(Flushed(c, edit, |asked|), asked + [edit])
  {
    var stopped := c.(debounce := false);
    var (id, queued) := QueuedFlush(stopped, edit);
    var waiting := queued.(waiters := queued.waiters + [Waiter(id, |asked|)]);
    assert Queue(stopped) == Queue(c) && InFlight(stopped) == InFlight(c);
    assert Queue(waiting) == Queue(queued) && InFlight(waiting) == InFlight(queued);
    hide QueuedFlush, Started, InFlight, Queue;
    IdsOfFewer(c, stopped);
    QueueingServes(stopped, edit);
    QueueingKeepsTimers(c, edit);
    IdsOfFewer(queued, waiting);
    hide IdsAreUnique;
    StartingServes(waiting);
    hide TimersAreTrue;
    forall w | w in waiting.waiters
      ensures IsServed(Started(waiting), asked + [edit], w)
    {
      assert w in c.waiters ==> IsServed(c, asked, w);
    }
  }

  lemma {:induction false} ServedAreWaiters(waiters: seq<Waiter>, id: nat, served: bool)
    ensures forall w | w in Served(waiters, id, served) :: w in waiters && (w.requestId == id) == served
  {
    if waiters != [] {
      ServedAreWaiters(waiters[..|waiters| - 1], id, served);
    }
  }

  lemma {:induction false} CallsAreOfWaiters(ready: seq<Waiter>, request: Request, outcome: Outcome)
    requires forall w | w in ready :: w.requestId == request.id
    ensures forall t | t in Calls(ready, request, outcome) ::
      t.Call? && t.request == request && t.outcome == outcome && Waiter(request.id, t.callback) in ready
  {
    if ready != [] {
      var w := ready[|ready| - 1];
      assert w in ready && w == Waiter(request.id, w.callback);
      CallsAreOfWaiters(ready[..|ready| - 1], request, outcome);
    }
  }

  /** A call made or due reports how a write ended that carried exactly the edit
      its flush asked for. */
  predicate CallIsExact(asked: seq<Edit>, ended: seq<Ending>, t: Task) {
    t.Call? ==> t.callback < |asked| && t.request.edit == asked[t.callback] && Ending(t.request, t.outcome) in ended
  }

  ghost predicate CallsAreExact(s: State) {
    && IdsAreUnique(s.c) && WaitersAreServed(s.c, s.asked)
    && (forall t | t in s.tasks || t in s.called :: CallIsExact(s.asked, s.ended, t))
    && (forall t | t in s.called :: t.Call?)
    && (forall ending | ending in s.ended :: ending.request in s.written)
    && (s.c.active.Some? ==> s.c.active.value in s.written)
  }

  lemma CallsOfServed(s: State, outcome: Outcome, t: Task)
    requires IdsAreUnique(s.c) && WaitersAreServed(s.c, s.asked) && s.c.active.Some?
    requires t in Calls(Served(s.c.waiters, s.c.active.value.id, true), s.c.active.value, outcome)
    ensures CallIsExact(s.asked, s.ended + [Ending(s.c.active.value, outcome)], t)
  {
    hide InFlight, Queue;
    var request := s.c.active.value;
    ServedAreWaiters(s.c.waiters, request.id, true);
    CallsAreOfWaiters(Served(s.c.waiters, request.id, true), request, outcome);
    hide Served, Calls;
    var edit := s.asked[t.callback];
    assert IsServed(s.c, s.asked, Waiter(request.id, t.callback));
    QueueHolds(s.c, request);
    QueueHolds(s.c, Request(request.id, edit));
  }

  lemma EndedIsServed(s: State, w: Waiter)
    requires WaitersAreServed(s.c, s.asked) && s.c.active.Some? && w in Ended(s.c).waiters
    ensures IsServed(Ended(s.c), s.asked, w)
  {
    hide InFlight;
    ServedAreWaiters(s.c.waiters, s.c.active.value.id, false);
    assert IsServed(s.c, s.asked, w);
    QueueHolds(s.c, Request(w.requestId, s.asked[w.callback]));
    QueueHolds(Ended(s.c), Request(w.requestId, s.asked[w.callback]));
  }

  lemma EndKeepsExact(s: State, outcome: Outcome)
    requires CallsAreExact(s) && s.c.active.Some?
    ensures CallsAreExact(AfterWrite(s, outcome))
  {
    hide Served, Calls, InFlight, Queue, IdsAreUnique, IsServed;
    var t, request := AfterWrite(s, outcome), s.c.active.value;
    forall task | task in Calls(Served(s.c.waiters, request.id, true), request, outcome)
      ensures CallIsExact(t.asked, t.ended, task)
    {
      CallsOfServed(s, outcome, task);
    }
    forall w | w in Ended(s.c).waiters
      ensures IsServed(Ended(s.c), s.asked, w)
    {
      EndedIsServed(s, w);
    }
    forall r | r in Queue(t.c)
      ensures r in Queue(s.c)
    {
      QueueHolds(t.c, r);
      QueueHolds(s.c, r);
    }
    IdsOfFewer(s.c, t.c);
  }

  lemma StartKeepsExact(s: State, d: Controller, asked: seq<Edit>)
    requires CallsAreExact(s) && IdsAreUnique(d) && WaitersAreServed(d, asked) && s.asked <= asked
    requires s.c.active.Some? ==> d.active == s.c.active
    ensures CallsAreExact(WithStart(s, d).(asked := asked))
  {
    hide IdsAreUnique, WaitersAreServed;
  }

  lemma StartingKeepsWaiters(c: Controller, asked: seq<Edit>)
    requires IdsAreUnique(c) && TimersAreTrue(c) && WaitersAreServed(c, asked)
    ensures IdsAreUnique(Started(c)) && WaitersAreServed(Started(c), asked)
  {
    StartingServes(c);
    hide IdsAreUnique, TimersAreTrue, Started, InFlight;
    forall w | w in c.waiters
      ensures IsServed(Started(c), asked, w)
    {
      assert IsServed(c, asked, w);
    }
  }

  lemma StepKeepsExact(s: State, e: Event)
    requires CallsAreExact(s) && TimersAreTrue(s.c)
    ensures CallsAreExact(Next(s, e))
  {
    match e
    case Schedule(edit) =>
    case Flush(edit) =>
      FlushServes(s.c, edit, s.asked);
      StartKeepsExact(s, Flushed(s.c, edit, |s.asked|), s.asked + [edit]);
      hide CallsAreExact;
    case TimerFires =>
      if s.c.debounce {
        var c := s.c.(debounce := false, pendingReady := true);
        assert Queue(c) == Queue(s.c) && InFlight(c) == InFlight(s.c);
        StartingKeepsWaiters(c, s.asked);
        StartKeepsExact(s, Started(c), s.asked);
        hide CallsAreExact;
      }
    case WriteEnds(outcome) =>
      if s.c.active.Some? {
        EndKeepsExact(s, outcome);
      }
      hide CallsAreExact;
    case TaskRuns =>
      if s.tasks != [] && s.tasks[0].StartNext? {
        StartingKeepsWaiters(s.c, s.asked);
        StartKeepsExact(s, Started(s.c), s.asked);
        hide WithStart, IdsAreUnique, WaitersAreServed, CallIsExact;
      } else {
        hide IdsAreUnique, WaitersAreServed, CallIsExact;
      }
  }

  // ---- Each callback once

  function WaiterCount(waiters: seq<Waiter>, callback: nat): nat {
    if waiters == [] then 0
    else WaiterCount(waiters[..|waiters| - 1], callback) + if waiters[|waiters| - 1].callback == callback then 1 else 0
  }

  function CallCount(tasks: seq<Task>, callback: nat): nat {
    if tasks == [] then 0
    else (if tasks[0].Call? && tasks[0].callback == callback then 1 else 0) + CallCount(tasks[1..], callback)
  }

  lemma {:induction false} CallCountConcat(a: seq<Task>, b: seq<Task>, callback: nat)
    ensures CallCount(a + b, callback) == CallCount(a, callback) + CallCount(b, callback)
  {
    if a == [] {
      assert a + b == b;
    } else {
      assert (a + b)[1..] == a[1..] + b;
      CallCountConcat(a[1..], b, callback);
    }
  }

  lemma WaiterCountStep(waiters: seq<Waiter>, w: Waiter, callback: nat)
    ensures WaiterCount(waiters + [w], callback) ==
      WaiterCount(waiters, callback) + if w.callback == callback then 1 else 0
  {
    assert (waiters + [w])[..|waiters|] == waiters;
  }

  lemma {:induction false} ServedSplitsCount(waiters: seq<Waiter>, id: nat, callback: nat)
    ensures WaiterCount(Served(waiters, id, true), callback) + WaiterCount(Served(waiters, id, false), callback)
         == WaiterCount(waiters, callback)
  {
    if waiters != [] {
      var front, w := waiters[..|waiters| - 1], waiters[|waiters| - 1];
      ServedSplitsCount(front, id, callback);
      WaiterCountStep(Served(front, id, true), w, callback);
      WaiterCountStep(Served(front, id, false), w, callback);
      assert Served(front, id, true) + [] == Served(front, id, true);
      assert Served(front, id, false) + [] == Served(front, id, false);
    }
  }

  lemma {:induction false} CallsKeepCount(ready: seq<Waiter>, request: Request, outcome: Outcome, callback: nat)
    ensures CallCount(Calls(ready, request, outcome), callback) == WaiterCount(ready, callback)
  {
    if ready != [] {
      var w := ready[|ready| - 1];
      CallsKeepCount(ready[..|ready| - 1], request, outcome, callback);
      CallCountConcat(Calls(ready[..|ready| - 1], request, outcome), [Call(w.callback, request, outcome)], callback);
    }
  }

  /** How often a callback is waiting, due or made. */
  function Occurrences(s: State, callback: nat): nat {
    WaiterCount(s.c.waiters, callback) + CallCount(s.tasks, callback) + CallCount(s.called, callback)
  }

  predicate IsOnce(s: State, callback: nat) {
    Occurrences(s, callback) == if callback < |s.asked| then 1 else 0
  }

  lemma StepKeepsOnce(s: State, e: Event, callback: nat)
    requires IsOnce(s, callback)
    ensures IsOnce(Next(s, e), callback)
  {
    hide IdOf, WaiterCount, CallCount, Served, Calls;
    match e
    case Schedule(edit) =>
    case Flush(edit) =>
      var (id, queued) := QueuedFlush(s.c.(debounce := false), edit);
      WaiterCountStep(s.c.waiters, Waiter(id, |s.asked|), callback);
    case TimerFires =>
    case WriteEnds(outcome) =>
      if s.c.active.Some? {
        var request := s.c.active.value;
        var ready := Served(s.c.waiters, request.id, true);
        ServedSplitsCount(s.c.waiters, request.id, callback);
        CallsKeepCount(ready, request, outcome, callback);
        CallCountConcat(Calls(ready, request, outcome), [StartNext], callback);
        CallCountConcat(Calls(ready, request, outcome) + [StartNext], s.tasks, callback);
        StartNextIsNoCall(callback);
      }
    case TaskRuns =>
      if s.tasks != [] {
        assert s.tasks == [s.tasks[0]] + s.tasks[1..];
        CallCountConcat([s.tasks[0]], s.tasks[1..], callback);
        CallCountConcat(s.called, [s.tasks[0]], callback);
        if s.tasks[0].StartNext? {
          StartNextIsNoCall(callback);
        }
      }
  }

  lemma StartNextIsNoCall(callback: nat)
    ensures CallCount([StartNext], callback) == 0
  {
  }

  // ---- Generations

  /** The callers' side: an edit is newer than all before it, a flush not older. */
  ghost predicate Follows(s: State, e: Event) {
    && (e.Schedule? ==> forall edit | edit in s.requested :: edit.generation < e.edit.generation)
    && (e.Flush? ==> forall edit | edit in s.requested :: edit.generation <= e.edit.generation)
  }

  /** The writes made and those to come. */
  function Line(s: State): seq<Request> {
    s.written + s.c.urgent + Listed(s.c.pending)
  }

  ghost predicate IsOrdered(line: seq<Request>) {
    forall i, j | 0 <= i < j < |line| :: line[i].id < line[j].id && line[i].edit.generation <= line[j].edit.generation
  }

  ghost predicate LineIsOrdered(s: State) {
    && IsOrdered(Line(s))
    && (forall r | r in Line(s) :: r.edit in s.requested)
    && (s.c.active.Some? ==> s.written != [] && s.written[|s.written| - 1] == s.c.active.value)
    && (s.c.pending.Some? ==>
          forall r | r in s.written + s.c.urgent :: r.edit.generation < s.c.pending.value.edit.generation)
    && (Line(s) == [] <==> s.requested == [])
    && (Line(s) != [] ==>
          var last := Line(s)[|Line(s)| - 1];
          && last.id == s.c.latestId && s.c.latestId < s.c.nextId
          && (forall edit | edit in s.requested :: edit.generation <= last.edit.generation))
  }

  /** A new request may follow what is written or urgent, in place of a pending one. */
  lemma NewRequestIsLast(s: State, edit: Edit)
    requires LineIsOrdered(s) && forall e | e in s.requested :: e.generation <= edit.generation
    ensures IsOrdered(s.written + s.c.urgent + [Request(s.c.nextId, edit)])
  {
    var base := s.written + s.c.urgent;
    forall i | 0 <= i < |base|
      ensures base[i].id < s.c.nextId && base[i].edit.generation <= edit.generation
    {
      assert Line(s)[i] == base[i];
      assert base[i] in Line(s);
      assert base[i].id <= Line(s)[|Line(s)| - 1].id;
    }
    forall i, j | 0 <= i < j < |base|
      ensures base[i].id < base[j].id && base[i].edit.generation <= base[j].edit.generation
    {
      assert Line(s)[i] == base[i] && Line(s)[j] == base[j];
    }
  }

  lemma SchedulingKeepsOrder(s: State, edit: Edit)
    requires LineIsOrdered(s) && Follows(s, Schedule(edit))
    ensures LineIsOrdered(Next(s, Schedule(edit)))
  {
    NewRequestIsLast(s, edit);
    var t := Next(s, Schedule(edit));
    assert Line(t) == s.written + s.c.urgent + [Request(s.c.nextId, edit)];
    forall r | r in s.written + s.c.urgent
      ensures r.edit.generation < edit.generation
    {
      assert r in Line(s);
    }
    hide IsOrdered;
  }

  lemma StartingKeepsOrder(s: State)
    requires LineIsOrdered(s) && TimersAreTrue(s.c)
    ensures LineIsOrdered(WithStart(s, Started(s.c)))
  {
    StartingKeepsLine(s);
    hide IsOrdered, Line;
  }

  lemma StartingKeepsLine(s: State)
    requires TimersAreTrue(s.c)
    ensures Line(WithStart(s, Started(s.c))) == Line(s)
  {
  }

  /** Stops at the early return: the pending edit would be newer than the flush. */
  lemma FoundIsNewest(s: State, edit: Edit)
    requires LineIsOrdered(s) && Follows(s, Flush(edit)) && IdOf(InFlight(s.c), edit).Some?
    ensures s.c.pending.None? && LineIsOrdered(s.(requested := s.requested + [edit]))
  {
    FoundIsListed(InFlight(s.c), edit);
    var found := Request(IdOf(InFlight(s.c), edit).value, edit);
    assert found in s.written + s.c.urgent;
    assert found in Line(s);
    assert found.edit in s.requested;
    hide IsOrdered;
  }

  lemma PendingIsNewest(s: State)
    requires LineIsOrdered(s) && s.c.pending.Some?
    ensures s.c.pending.value.edit in s.requested
    ensures forall e | e in s.requested :: e.generation <= s.c.pending.value.edit.generation
  {
    assert s.c.pending.value == Line(s)[|Line(s)| - 1] && s.c.pending.value in Line(s);
    hide IsOrdered;
  }

  /** A pending edit that is flushed becomes urgent, at the same place in line. */
  lemma PromotingKeepsOrder(s: State, t: State)
    requires LineIsOrdered(s) && s.c.pending.Some? && t.c.pending.None?
    requires t.c.urgent == s.c.urgent + [s.c.pending.value]
    requires t.written == s.written && t.requested == s.requested + [s.c.pending.value.edit] && t.c.active == s.c.active
    requires t.c.latestId == s.c.latestId && t.c.nextId == s.c.nextId
    ensures LineIsOrdered(t)
  {
    PendingIsNewest(s);
    assert Line(t) == Line(s);
    hide IsOrdered;
  }

  /** Any other is dropped for the flush, which is not older. */
  lemma PushingKeepsOrder(s: State, t: State, edit: Edit)
    requires LineIsOrdered(s) && Follows(s, Flush(edit))
    requires t.c.pending.None? && t.c.urgent == s.c.urgent + [Request(s.c.nextId, edit)]
    requires t.written == s.written && t.requested == s.requested + [edit] && t.c.active == s.c.active
    requires t.c.latestId == s.c.nextId && t.c.nextId == s.c.nextId + 1
    ensures LineIsOrdered(t)
  {
    NewRequestIsLast(s, edit);
    assert Line(t) == s.written + s.c.urgent + [Request(s.c.nextId, edit)];
    assert forall r | r in s.written + s.c.urgent :: r in Line(s);
    hide IsOrdered;
  }

  lemma QueueingKeepsOrder(s: State, edit: Edit)
    requires LineIsOrdered(s) && TimersAreTrue(s.c) && Follows(s, Flush(edit))
    ensures LineIsOrdered(s.(c := QueuedFlush(s.c, edit).1, requested := s.requested + [edit]))
    ensures StrandsNothing(s.c, Flush(edit))
  {
    hide LineIsOrdered, IdOf;
    var t := s.(c := QueuedFlush(s.c, edit).1, requested := s.requested + [edit]);
    if s.c.pending.Some? {
      PendingIsNewest(s);
    }
    if IdOf(InFlight(s.c), edit).Some? {
      FoundIsNewest(s, edit);
    } else if s.c.pending.Some? && s.c.pending.value.edit == edit {
      PromotingKeepsOrder(s, t);
    } else {
      PushingKeepsOrder(s, t, edit);
    }
  }

  /** Timers, waiters and tasks do not matter to the order. */
  lemma OrderIsOfTheLine(s: State, t: State)
    requires LineIsOrdered(s)
    requires t.written == s.written && t.requested == s.requested && t.c.urgent == s.c.urgent
    requires t.c.pending == s.c.pending
    requires t.c.active == s.c.active || t.c.active.None?
    requires t.c.latestId == s.c.latestId && t.c.nextId == s.c.nextId
    ensures LineIsOrdered(t)
  {
    assert Line(t) == Line(s);
    hide IsOrdered;
  }

  lemma FlushingKeepsOrder(s: State, edit: Edit)
    requires LineIsOrdered(s) && TimersAreTrue(s.c) && Follows(s, Flush(edit))
    ensures LineIsOrdered(Next(s, Flush(edit))) && StrandsNothing(s.c, Flush(edit))
  {
    hide LineIsOrdered, IdOf;
    var stopped := s.(c := s.c.(debounce := false));
    var (id, queued) := QueuedFlush(stopped.c, edit);
    var t := stopped.(c := queued, requested := s.requested + [edit]);
    var u := t.(c := queued.(waiters := queued.waiters + [Waiter(id, |s.asked|)]));
    assert InFlight(stopped.c) == InFlight(s.c);
    OrderIsOfTheLine(s, stopped);
    QueueingKeepsOrder(stopped, edit);
    OrderIsOfTheLine(t, u);
    StartingKeepsOrder(u);
    OrderIsOfTheLine(WithStart(u, Started(u.c)), Next(s, Flush(edit)));
  }

  lemma StepKeepsOrder(s: State, e: Event)
    requires LineIsOrdered(s) && TimersAreTrue(s.c) && Follows(s, e)
    ensures LineIsOrdered(Next(s, e)) && StrandsNothing(s.c, e)
  {
    hide LineIsOrdered, IdOf, Served, Calls;
    match e
    case Schedule(edit) => SchedulingKeepsOrder(s, edit);
    case Flush(edit) =>
      FlushingKeepsOrder(s, edit);
      hide Next;
    case TimerFires =>
      if s.c.debounce {
        var t := s.(c := s.c.(debounce := false, pendingReady := true));
        OrderIsOfTheLine(s, t);
        StartingKeepsOrder(t);
        OrderIsOfTheLine(WithStart(t, Started(t.c)), Next(s, e));
      }
    case WriteEnds(outcome) =>
      OrderIsOfTheLine(s, Next(s, e));
    case TaskRuns =>
      StartingKeepsOrder(s);
      hide Started;
      OrderIsOfTheLine(if s.tasks != [] && s.tasks[0].StartNext? then WithStart(s, Started(s.c)) else s, Next(s, e));
  }

  // ---- All runs

  predicate Sound(s: State) {
    TimersAreTrue(s.c) && RunnableIsTaken(s)
  }

  lemma {:induction false} EveryRunIsSound(events: seq<Event>)
    ensures Sound(Run(events)) && CallsAreExact(Run(events))
  {
    if events == [] {
      assert Queue(Empty()) == [];
    } else {
      var s, e := Run(events[..|events| - 1]), events[|events| - 1];
      EveryRunIsSound(events[..|events| - 1]);
      StepKeepsTimers(s, e);
      StepKeepsExact(s, e);
      hide Next, CallsAreExact;
    }
  }

  lemma {:induction false} EveryCallbackIsOnce(events: seq<Event>, callback: nat)
    ensures IsOnce(Run(events), callback)
  {
    if events != [] {
      EveryCallbackIsOnce(events[..|events| - 1], callback);
      StepKeepsOnce(Run(events[..|events| - 1]), events[|events| - 1], callback);
      hide Next, IsOnce;
    }
  }

  /** A run in which no flush returns early past an edit only a timer would wake. */
  predicate IsCareful(events: seq<Event>) {
    events == [] ||
    (IsCareful(events[..|events| - 1]) && StrandsNothing(Run(events[..|events| - 1]).c, events[|events| - 1]))
  }

  /** A run whose edits and flushes follow the generations. */
  ghost predicate IsDisciplined(events: seq<Event>) {
    events == [] ||
    (IsDisciplined(events[..|events| - 1]) && Follows(Run(events[..|events| - 1]), events[|events| - 1]))
  }

  lemma {:induction false} CarefulRunsStrandNothing(events: seq<Event>)
    requires IsCareful(events)
    ensures NothingIsStranded(Run(events).c)
  {
    if events != [] {
      var s, e := Run(events[..|events| - 1]), events[|events| - 1];
      CarefulRunsStrandNothing(events[..|events| - 1]);
      EveryRunIsSound(events[..|events| - 1]);
      StepKeepsTimers(s, e);
      hide Next, NothingIsStranded, CallsAreExact, StrandsNothing;
    }
  }

  lemma {:induction false} DisciplinedRunsAreOrdered(events: seq<Event>)
    requires IsDisciplined(events)
    ensures LineIsOrdered(Run(events)) && IsCareful(events)
  {
    if events != [] {
      var s, e := Run(events[..|events| - 1]), events[|events| - 1];
      DisciplinedRunsAreOrdered(events[..|events| - 1]);
      EveryRunIsSound(events[..|events| - 1]);
      StepKeepsOrder(s, e);
      hide Next, LineIsOrdered, CallsAreExact, StrandsNothing, Follows;
    }
  }

  // ---- Progress

  /** Nothing is left for the main loop to do until somebody calls. */
  predicate IsAtRest(s: State) {
    !s.c.debounce && s.c.active.None? && s.tasks == []
  }

  /** A bound on the turns of the main loop until the controller is at rest. */
  function Work(s: State): nat {
    One(s.c.debounce) + 3 * (|s.c.urgent| + One(s.c.pending.Some?))
    + 2 * One(s.c.active.Some?) + 2 * |s.c.waiters| + |s.tasks|
  }

  lemma {:induction false} ServedSplitsLength(waiters: seq<Waiter>, id: nat)
    ensures |Served(waiters, id, true)| + |Served(waiters, id, false)| == |waiters|
  {
    if waiters != [] {
      ServedSplitsLength(waiters[..|waiters| - 1], id);
    }
  }

  lemma TurnsAreWork(s: State, e: Event)
    requires !e.Schedule? && !e.Flush?
    requires !(e.TimerFires? && !s.c.debounce) && !(e.WriteEnds? && s.c.active.None?) && !(e.TaskRuns? && s.tasks == [])
    ensures Work(Next(s, e)) < Work(s)
  {
    if e.WriteEnds? {
      ServedSplitsLength(s.c.waiters, s.c.active.value.id);
    }
  }

  // ---- What the controller promises

  /** At most one call of each callback, and only with the outcome of a write that
      carried the generation and action its flush asked for; until then the
      request it waits for is active or urgent, or the call is due. */
  lemma FlushesAreAnswered(events: seq<Event>, callback: nat)
    ensures var s := Run(events);
      && CallCount(s.called, callback) <= 1
      && (callback < |s.asked| ==>
            WaiterCount(s.c.waiters, callback) + CallCount(s.tasks, callback) + CallCount(s.called, callback) == 1)
      && (forall t | t in s.called :: CallIsExact(s.asked, s.ended, t))
      && (forall w | w in s.c.waiters :: IsServed(s.c, s.asked, w))
  {
    EveryCallbackIsOnce(events, callback);
    EveryRunIsSound(events);
  }

  /** A careful run at rest has nothing left waiting and has made every call. */
  lemma RestIsComplete(events: seq<Event>, callback: nat)
    requires IsCareful(events) && IsAtRest(Run(events))
    ensures var s := Run(events);
      && s.c.pending.None? && s.c.urgent == [] && s.c.waiters == []
      && CallCount(s.called, callback) == if callback < |s.asked| then 1 else 0
  {
    var s := Run(events);
    EveryCallbackIsOnce(events, callback);
    EveryRunIsSound(events);
    CarefulRunsStrandNothing(events);
    assert InFlight(s.c) == [];
    assert s.c.waiters != [] ==> IsServed(s.c, s.asked, s.c.waiters[0]);
  }

  /** When callers follow the generations, no edit is stranded, written generations
      never decrease, and at rest the last write has the newest requested one. */
  lemma GenerationsAreWrittenInOrder(events: seq<Event>)
    requires IsDisciplined(events)
    ensures var s := Run(events);
      && NothingIsStranded(s.c)
      && (forall i, j | 0 <= i < j < |s.written| :: s.written[i].edit.generation <= s.written[j].edit.generation)
      && (IsAtRest(s) && s.requested != [] ==>
            && s.written != []
            && forall edit | edit in s.requested :: edit.generation <= s.written[|s.written| - 1].edit.generation)
  {
    var s := Run(events);
    DisciplinedRunsAreOrdered(events);
    CarefulRunsStrandNothing(events);
    OrderIsOfWrites(s);
    if IsAtRest(s) {
      RestIsComplete(events, 0);
      assert Line(s) == s.written;
    }
    hide IsOrdered, Run, IsDisciplined, IsCareful, LineIsOrdered;
  }

  lemma OrderIsOfWrites(s: State)
    requires LineIsOrdered(s)
    ensures forall i, j | 0 <= i < j < |s.written| :: s.written[i].edit.generation <= s.written[j].edit.generation
    ensures Line(s) == s.written && s.requested != [] ==>
      && s.written != []
      && forall edit | edit in s.requested :: edit.generation <= s.written[|s.written| - 1].edit.generation
  {
    assert forall i | 0 <= i < |s.written| :: s.written[i] == Line(s)[i];
  }

  /** Then a write that ends is reported as the latest exactly if nothing waits. */
  lemma LatestMeansNothingWaits(events: seq<Event>)
    requires IsDisciplined(events) && Run(events).c.active.Some?
    ensures var c := Run(events).c;
      IsLatest(c, c.active.value) <==> c.urgent == [] && c.pending.None?
  {
    var s := Run(events);
    DisciplinedRunsAreOrdered(events);
    hide Run, IsDisciplined, IsCareful;
    var k := |s.written| - 1;
    assert Line(s)[k] == s.c.active.value;
    if s.c.urgent == [] && s.c.pending.None? {
      assert Line(s) == s.written;
    } else {
      assert k < |Line(s)| - 1;
    }
  }

  function StrandingRun(older: Edit, newer: Edit): seq<Event> {
    [Schedule(older), TimerFires, Schedule(newer), Flush(older), WriteEnds(Done), TaskRuns, TaskRuns]
  }

  lemma StrandingBegins(older: Edit, newer: Edit)
    requires older != newer
    ensures var events := StrandingRun(older, newer);
      var c := Run(events[..4]).c;
      Run(events[..4]).tasks == [] && c.pending == Some(Request(2, newer)) && !c.pendingReady && !c.debounce
      && c.urgent == [] && c.active == Some(Request(1, older)) && c.waiters == [Waiter(1, 0)]
  {
    var events := StrandingRun(older, newer);
    forall k | 0 <= k < 4
      ensures Run(events[..k + 1]) == Next(Run(events[..k]), events[k])
    {
      assert events[..k + 1][..k] == events[..k];
    }
    assert Run(events[..0]).c == Empty() && Run(events[..0]).tasks == [] && Run(events[..0]).asked == [];
    hide Run;
    var s1, s2, s3 := Run(events[..1]), Run(events[..2]), Run(events[..3]);
    assert s1.c.pending == Some(Request(1, older)) && s1.asked == [] && s1.tasks == [];
    assert s2.c.active == Some(Request(1, older)) && s2.c.urgent == [] && s2.asked == [] && s2.tasks == [];
    assert s3.c.pending == Some(Request(2, newer)) && s3.asked == [] && s3.tasks == [];
    assert InFlight(s3.c.(debounce := false)) == [Request(1, older)];
  }

  lemma StrandingEnds(s: State, w: Waiter)
    requires s.tasks == [] && !s.c.debounce && !s.c.pendingReady && s.c.urgent == []
    requires s.c.active.Some? && s.c.active.value.id == w.requestId && s.c.waiters == [w]
    ensures var t := Next(Next(Next(s, WriteEnds(Done)), TaskRuns), TaskRuns);
      IsAtRest(t) && t.c.pending == s.c.pending && !t.c.pendingReady
  {
    assert [w][..0] == [];
    assert Served([w], w.requestId, true) == [w];
    hide Served, Calls;
    var t := AfterWrite(s, Done);
    assert |t.tasks| == 2 && t.tasks[1] == StartNext && t.c.active.None?;
    var u := Next(t, TaskRuns);
    OneCall(w, s.c.active.value);
    assert t.tasks == Calls([w], s.c.active.value, Done) + [StartNext];
    assert u.c == t.c && u.tasks == [StartNext];
  }

  lemma OneCall(w: Waiter, request: Request)
    ensures Calls([w], request, Done)[0].Call?
  {
    assert [w][..0] == [];
  }

  /** The early return can strand an edit: scheduled while an older one is being
      written, it is never written once that older one is flushed again. */
  lemma AnEditCanBeStranded(older: Edit, newer: Edit)
    requires older != newer
    ensures var s := Run(StrandingRun(older, newer));
      IsAtRest(s) && s.c.pending == Some(Request(2, newer)) && !s.c.pendingReady
  {
    var events := StrandingRun(older, newer);
    assert events[..7] == events;
    assert events[..7][..6] == events[..6] && events[..6][..5] == events[..5] && events[..5][..4] == events[..4];
    assert Run(events[..5]) == Next(Run(events[..4]), WriteEnds(Done));
    assert Run(events[..6]) == Next(Run(events[..5]), TaskRuns);
    assert Run(events[..7]) == Next(Run(events[..6]), TaskRuns);
    hide Run, Next;
    StrandingBegins(older, newer);
    StrandingEnds(Run(events[..4]), Waiter(1, 0));
  }
}
