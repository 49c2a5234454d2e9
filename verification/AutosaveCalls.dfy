// In which order the autosave controller calls flush callbacks back
// (crates/notm-ui/src/draft_autosave.rs).
module AutosaveCalls {
  import opened DraftAutosave

  /** Calls made and calls due, one after the other. */
  function Line(s: State): seq<Task> {
    s.called + s.tasks
  }

  /** Calls for one request come in the order of their flushes. */
  ghost predicate InOrder(line: seq<Task>) {
    forall i, j | 0 <= i < j < |line| ::
      line[i].Call? && line[j].Call? && line[i].request.id == line[j].request.id ==> line[i].callback < line[j].callback
  }

  ghost predicate WaitInOrder(waiters: seq<Waiter>, asked: nat) {
    && (forall w | w in waiters :: w.callback < asked)
    && (forall i, j | 0 <= i < j < |waiters| :: waiters[i].callback < waiters[j].callback)
  }

  /** Requests that wait or are written have ids of their own, all below the next. */
  ghost predicate AreDistinct(queue: seq<Request>, nextId: nat) {
    && (forall i | 0 <= i < |queue| :: queue[i].id < nextId)
    && (forall i, j | 0 <= i < j < |queue| :: queue[i].id != queue[j].id)
  }

  /** A request with a call made or due is neither queued nor numbered again. */
  ghost predicate AreOver(line: seq<Task>, queue: seq<Request>, nextId: nat) {
    forall t | t in line && t.Call? :: t.request.id < nextId && forall r | r in queue :: r.id != t.request.id
  }

  ghost predicate IsOrdered(s: State) {
    && InOrder(Line(s)) && AreOver(Line(s), Queue(s.c), s.c.nextId)
    && AreDistinct(Queue(s.c), s.c.nextId) && WaitInOrder(s.c.waiters, |s.asked|)
  }

  // ---- Waiters and their calls

  lemma {:induction false} ServedInOrder(waiters: seq<Waiter>, id: nat, served: bool, asked: nat)
    requires WaitInOrder(waiters, asked)
    ensures WaitInOrder(Served(waiters, id, served), asked)
    decreases |waiters|
  {
    hide WaitInOrder, Served;
    if waiters == [] {
      NoneServed(id, served);
    } else {
      var front, last := waiters[..|waiters| - 1], waiters[|waiters| - 1];
      FrontInOrder(waiters, asked);
      ServedInOrder(front, id, served, last.callback);
      ServedStep(waiters, id, served);
      WaitUpTo(Served(front, id, served), last, asked);
    }
  }

  lemma NoneServed(id: nat, served: bool)
    ensures Served([], id, served) == []
  {
  }

  lemma FrontInOrder(waiters: seq<Waiter>, asked: nat)
    requires WaitInOrder(waiters, asked) && waiters != []
    ensures var (front, last) := (waiters[..|waiters| - 1], waiters[|waiters| - 1]);
      last.callback < asked && WaitInOrder(front, last.callback)
  {
    var front, last := waiters[..|waiters| - 1], waiters[|waiters| - 1];
    assert last in waiters;
    forall w | w in front
      ensures w.callback < last.callback
    {
      var i :| 0 <= i < |front| && front[i] == w;
    }
  }

  lemma ServedStep(waiters: seq<Waiter>, id: nat, served: bool)
    requires waiters != []
    ensures var front := Served(waiters[..|waiters| - 1], id, served);
      Served(waiters, id, served) == front || Served(waiters, id, served) == front + [waiters[|waiters| - 1]]
  {
    var front := Served(waiters[..|waiters| - 1], id, served);
    assert front + [] == front;
  }

  lemma WaitUpTo(waiters: seq<Waiter>, last: Waiter, asked: nat)
    requires WaitInOrder(waiters, last.callback) && last.callback < asked
    ensures WaitInOrder(waiters, asked) && WaitInOrder(waiters + [last], asked)
  {
    var more := waiters + [last];
    forall i, j | 0 <= i < j < |more|
      ensures more[i].callback < more[j].callback
    {
      assert i < |waiters| && waiters[i] in waiters;
    }
  }

  lemma {:induction false} CallsInOrder(ready: seq<Waiter>, request: Request, outcome: Outcome)
    ensures forall i | 0 <= i < |ready| ::
      Calls(ready, request, outcome)[i] == Call(ready[i].callback, request, outcome)
  {
    if ready != [] {
      CallsInOrder(ready[..|ready| - 1], request, outcome);
    }
  }

  lemma NewCallsInOrder(called: seq<Task>, due: seq<Task>, tasks: seq<Task>, request: Request)
    requires InOrder(called + tasks) && InOrder(due)
    requires forall t | t in due :: t.Call? && t.request == request
    requires forall t | t in called + tasks && t.Call? :: t.request.id != request.id
    ensures InOrder(called + (due + [StartNext] + tasks))
  {
    var line, before := called + (due + [StartNext] + tasks), called + tasks;
    var n, m := |called|, |called| + |due|;
    forall i, j | 0 <= i < j < |line|
      ensures line[i].Call? && line[j].Call? && line[i].request.id == line[j].request.id ==>
        line[i].callback < line[j].callback
    {
      if n <= i < m && n <= j < m {
        assert line[i] == due[i - n] && line[j] == due[j - n];
      } else {
        var a := if i < n then i else if i <= m then -1 else i - |due| - 1;
        var b := if j < n then j else if j <= m then -1 else j - |due| - 1;
        assert if a >= 0 then line[i] == before[a] else line[i] in due || line[i] == StartNext;
        assert if b >= 0 then line[j] == before[b] else line[j] in due || line[j] == StartNext;
      }
    }
  }

  // ---- The queue

  lemma StartedQueue(c: Controller)
    requires TimersAreTrue(c)
    ensures Queue(Started(c)) == Queue(c)
    ensures Started(c).nextId == c.nextId && Started(c).waiters == c.waiters
  {
    if c.active.None? && c.urgent != [] {
      assert c.urgent == [c.urgent[0]] + c.urgent[1..];
    }
  }

  /** Queueing a flush keeps the queue, or puts a new request before the pending
      one, which may go. */
  lemma FlushedQueue(c: Controller, edit: Edit)
    ensures var d := QueuedFlush(c, edit).1;
      && d.waiters == c.waiters
      && (|| (Queue(d) == Queue(c) && d.nextId == c.nextId)
          || (d.nextId == c.nextId + 1
              && (|| Queue(d) == InFlight(c) + [Request(c.nextId, edit)] + Listed(c.pending)
                  || Queue(d) == InFlight(c) + [Request(c.nextId, edit)])))
  {
    hide IdOf;
    var d := QueuedFlush(c, edit).1;
    var added := Request(c.nextId, edit);
    assert Listed(c.active) + (c.urgent + [added]) == InFlight(c) + [added];
    assert InFlight(c) + [added] + [] == InFlight(c) + [added];
    if c.pending.Some? {
      assert Listed(c.active) + (c.urgent + [c.pending.value]) + [] == InFlight(c) + [c.pending.value];
    }
  }

  lemma DistinctOneMore(front: seq<Request>, back: seq<Request>, nextId: nat, added: Request)
    requires AreDistinct(front + back, nextId) && added.id == nextId
    ensures AreDistinct(front + [added] + back, nextId + 1) && AreDistinct(front + [added], nextId + 1)
  {
    var queue := front + back;
    assert forall i | 0 <= i < |front| :: front[i] == queue[i];
    assert forall i | 0 <= i < |back| :: back[i] == queue[|front| + i];
  }

  // ---- Steps

  lemma OrderedAlike(s: State, t: State)
    requires IsOrdered(s) && Line(t) == Line(s) && s.c.nextId <= t.c.nextId
    requires AreDistinct(Queue(t.c), t.c.nextId) && WaitInOrder(t.c.waiters, |t.asked|)
    requires forall r | r in Queue(t.c) :: r in Queue(s.c) || r.id == s.c.nextId
    ensures IsOrdered(t)
  {
    hide Queue, Line, AreDistinct, InOrder, WaitInOrder;
  }

  lemma ScheduleIsOrdered(s: State, edit: Edit)
    requires IsOrdered(s)
    ensures IsOrdered(Next(s, Schedule(edit)))
  {
    var t := Next(s, Schedule(edit));
    var added := Request(s.c.nextId, edit);
    DistinctOneMore(InFlight(s.c), Listed(s.c.pending), s.c.nextId, added);
    assert Queue(t.c) == InFlight(s.c) + [added];
    assert forall r | r in InFlight(s.c) :: r in Queue(s.c);
    assert Line(t) == Line(s);
    hide Queue, Line, AreDistinct, InOrder, WaitInOrder, InFlight;
    OrderedAlike(s, t);
  }

  lemma WaitOneMore(waiters: seq<Waiter>, id: nat, asked: nat)
    requires WaitInOrder(waiters, asked)
    ensures WaitInOrder(waiters + [Waiter(id, asked)], asked + 1)
  {
    var more := waiters + [Waiter(id, asked)];
    forall i, j | 0 <= i < j < |more|
      ensures more[i].callback < more[j].callback
    {
      assert i < |waiters| && waiters[i] in waiters;
    }
  }

  lemma FlushKeepsQueue(c: Controller, edit: Edit, asked: nat)
    requires AreDistinct(Queue(c), c.nextId) && WaitInOrder(c.waiters, asked) && TimersAreTrue(c)
    ensures var d := Flushed(c, edit, asked);
      && AreDistinct(Queue(d), d.nextId) && WaitInOrder(d.waiters, asked + 1) && c.nextId <= d.nextId
      && forall r | r in Queue(d) :: r in Queue(c) || r.id == c.nextId
  {
    hide *;
    var stopped := c.(debounce := false);
    var (id, queued) := QueuedFlush(stopped, edit);
    var waiting := queued.(waiters := queued.waiters + [Waiter(id, asked)]);
    FlushedIs(c, edit, asked);
    QueueAlike(c, stopped);
    QueueAlike(queued, waiting);
    QueueIs(c);
    FlushedQueue(stopped, edit);
    QueueingKeepsTimers(c, edit);
    TimersAlike(queued, waiting);
    StartedQueue(waiting);
    DistinctOneMore(InFlight(c), Listed(c.pending), c.nextId, Request(c.nextId, edit));
    WaitOneMore(c.waiters, id, asked);
  }

  lemma FlushedIs(c: Controller, edit: Edit, asked: nat)
    ensures var (id, queued) := QueuedFlush(c.(debounce := false), edit);
      Flushed(c, edit, asked) == Started(queued.(waiters := queued.waiters + [Waiter(id, asked)]))
  {
    hide QueuedFlush, Started;
  }

  lemma QueueAlike(c: Controller, d: Controller)
    requires d.active == c.active && d.urgent == c.urgent && d.pending == c.pending
    ensures Queue(d) == Queue(c) && InFlight(d) == InFlight(c)
  {
  }

  lemma TimersAlike(c: Controller, d: Controller)
    requires TimersAreTrue(c) && d == c.(waiters := d.waiters)
    ensures TimersAreTrue(d)
  {
  }

  lemma QueueIs(c: Controller)
    ensures Queue(c) == InFlight(c) + Listed(c.pending)
    ensures forall r | r in InFlight(c) :: r in Queue(c)
    ensures forall r | r in Listed(c.pending) :: r in Queue(c)
  {
    hide InFlight, Listed;
  }

  lemma FlushIsOrdered(s: State, edit: Edit)
    requires IsOrdered(s) && TimersAreTrue(s.c)
    ensures IsOrdered(Next(s, Flush(edit)))
  {
    var t := Next(s, Flush(edit));
    assert Line(t) == Line(s);
    hide Queue, Line, AreDistinct, InOrder, WaitInOrder, Flushed, TimersAreTrue, AreOver;
    FlushKeepsQueue(s.c, edit, |s.asked|);
    OrderedAlike(s, t);
  }

  lemma StartIsOrdered(s: State, c: Controller, t: State)
    requires IsOrdered(s) && TimersAreTrue(c) && Queue(c) == Queue(s.c) && c.nextId == s.c.nextId
    requires c.waiters == s.c.waiters && t.c == Started(c) && Line(t) == Line(s) && t.asked == s.asked
    ensures IsOrdered(t)
  {
    hide Queue, Line, AreDistinct, InOrder, WaitInOrder, Started, TimersAreTrue;
    StartedQueue(c);
    OrderedAlike(s, t);
  }

  lemma WriteEndIsOrdered(s: State, outcome: Outcome)
    requires IsOrdered(s) && s.c.active.Some?
    ensures IsOrdered(AfterWrite(s, outcome))
  {
    var request := s.c.active.value;
    var ready := Served(s.c.waiters, request.id, true);
    var due := Calls(ready, request, outcome);
    var t := AfterWrite(s, outcome);
    assert Queue(s.c) == [request] + Queue(t.c);
    ServedInOrder(s.c.waiters, request.id, true, |s.asked|);
    ServedInOrder(s.c.waiters, request.id, false, |s.asked|);
    DueInOrder(ready, request, outcome, |s.asked|);
    hide Served, Calls, InOrder, WaitInOrder, Queue;
    assert request in Queue(s.c);
    NewCallsInOrder(s.called, due, s.tasks, request);
    QueueShrinks(Queue(s.c), Queue(t.c), request, s.c.nextId);
    LineGrows(s, due, request, t);
  }

  lemma DueInOrder(ready: seq<Waiter>, request: Request, outcome: Outcome, asked: nat)
    requires WaitInOrder(ready, asked)
    ensures InOrder(Calls(ready, request, outcome))
    ensures forall t | t in Calls(ready, request, outcome) :: t.Call? && t.request == request
  {
    CallsInOrder(ready, request, outcome);
    hide Calls;
  }

  lemma QueueShrinks(queue: seq<Request>, rest: seq<Request>, request: Request, nextId: nat)
    requires AreDistinct(queue, nextId) && queue == [request] + rest
    ensures AreDistinct(rest, nextId) && request.id < nextId
    ensures forall r | r in rest :: r in queue && r.id != request.id
  {
    assert forall i | 0 <= i < |rest| :: rest[i] == queue[i + 1];
    assert queue[0] == request;
  }

  lemma LineGrows(s: State, due: seq<Task>, request: Request, t: State)
    requires AreOver(Line(s), Queue(s.c), s.c.nextId) && t.c.nextId == s.c.nextId
    requires t.called == s.called && t.tasks == due + [StartNext] + s.tasks
    requires forall x | x in due :: x.Call? && x.request == request
    requires request.id < s.c.nextId && forall r | r in Queue(t.c) :: r in Queue(s.c) && r.id != request.id
    ensures AreOver(Line(t), Queue(t.c), t.c.nextId) && Line(t) == s.called + (due + [StartNext] + s.tasks)
  {
    hide Queue;
    forall x | x in Line(t) && x.Call?
      ensures x in Line(s) || x in due
    {
    }
  }

  lemma TaskIsOrdered(s: State)
    requires IsOrdered(s) && TimersAreTrue(s.c) && s.tasks != []
    ensures IsOrdered(Next(s, TaskRuns))
  {
    var t := Next(s, TaskRuns);
    assert s.tasks == [s.tasks[0]] + s.tasks[1..];
    if s.tasks[0].Call? {
      assert Line(t) == Line(s);
      hide Queue, Line, AreDistinct, InOrder, WaitInOrder;
      OrderedAlike(s, t);
    } else {
      var u := s.(tasks := s.tasks[1..]);
      TaskLeaves(s, u);
      assert Line(t) == Line(u);
      hide IsOrdered, Line, Queue, Started, TimersAreTrue;
      StartIsOrdered(u, s.c, t);
    }
  }

  lemma TaskLeaves(s: State, u: State)
    requires IsOrdered(s) && s.tasks != [] && u == s.(tasks := s.tasks[1..])
    ensures IsOrdered(u)
  {
    hide Queue, AreDistinct, WaitInOrder;
    var n := |s.called|;
    assert forall i | 0 <= i < |Line(u)| :: Line(u)[i] == Line(s)[if i < n then i else i + 1];
  }

  lemma StepIsOrdered(s: State, e: Event)
    requires IsOrdered(s) && TimersAreTrue(s.c)
    ensures IsOrdered(Next(s, e))
  {
    hide IsOrdered, Queue, Line, Started, AfterWrite, Flushed, Scheduled;
    match e
    case Schedule(edit) => ScheduleIsOrdered(s, edit);
    case Flush(edit) => FlushIsOrdered(s, edit);
    case TimerFires =>
      if s.c.debounce {
        var c := s.c.(debounce := false, pendingReady := true);
        TimerQueue(s, c);
        StartIsOrdered(s, c, Next(s, e));
      }
    case WriteEnds(outcome) =>
      if s.c.active.Some? {
        WriteEndIsOrdered(s, outcome);
      }
    case TaskRuns =>
      if s.tasks != [] {
        TaskIsOrdered(s);
      }
  }

  lemma TimerQueue(s: State, c: Controller)
    requires TimersAreTrue(s.c) && s.c.debounce && c == s.c.(debounce := false, pendingReady := true)
    ensures Queue(c) == Queue(s.c) && TimersAreTrue(c)
    ensures Line(WithStart(s, Started(c))) == Line(s)
  {
  }

  lemma {:induction false} RunIsOrdered(events: seq<Event>)
    ensures IsOrdered(Run(events)) && TimersAreTrue(Run(events).c) && RunnableIsTaken(Run(events))
    decreases |events|
  {
    if events != [] {
      var front := events[..|events| - 1];
      RunIsOrdered(front);
      StepIsOrdered(Run(front), events[|events| - 1]);
      StepKeepsTimers(Run(front), events[|events| - 1]);
      hide IsOrdered, Next, TimersAreTrue, RunnableIsTaken;
    }
  }

  /** In every run, re-entrant calls included: the callbacks that one write answers
      are called in the order of their flushes. */
  lemma CallbacksKeepOrder(events: seq<Event>, i: nat, j: nat)
    requires i < j < |Run(events).called|
    requires Run(events).called[i].Call? && Run(events).called[j].Call?
    requires Run(events).called[i].request.id == Run(events).called[j].request.id
    ensures Run(events).called[i].callback < Run(events).called[j].callback
  {
    var s := Run(events);
    RunIsOrdered(events);
    assert Line(s)[i] == s.called[i] && Line(s)[j] == s.called[j];
    hide Run, Queue;
  }
}
