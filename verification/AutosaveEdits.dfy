// What becomes of every edit the autosave controller is given
// (crates/notm-ui/src/draft_autosave.rs): it is written, waits to be, or was
// replaced by a later one; told by the history of a run and the slots alone.
module AutosaveEdits {
  import opened MailText
  import opened DraftAutosave

  predicate IsAmong(requests: seq<Request>, edit: Edit) {
    exists r | r in requests :: r.edit == edit
  }

  predicate IsPending(s: State, edit: Edit) {
    s.c.pending.Some? && s.c.pending.value.edit == edit
  }

  /** A later edit, or a flush that is not older. */
  predicate Replaces(e: Event, edit: Edit) {
    e.Schedule? || (e.Flush? && e.edit.generation >= edit.generation)
  }

  predicate IsRequest(e: Event) {
    e.Schedule? || e.Flush?
  }

  lemma StartingMoves(s: State, edit: Edit)
    requires TimersAreTrue(s.c)
    ensures var t := WithStart(s, Started(s.c));
      && (IsAmong(s.written, edit) ==> IsAmong(t.written, edit))
      && (IsAmong(s.c.urgent, edit) ==> IsAmong(t.written, edit) || IsAmong(t.c.urgent, edit))
      && (IsPending(s, edit) ==> IsAmong(t.written, edit) || IsPending(t, edit))
  {
    var t := WithStart(s, Started(s.c));
    assert forall r | r in s.written :: r in t.written;
    if s.c.active.None? && t.c.active.Some? {
      assert t.written[|t.written| - 1] == t.c.active.value;
      assert t.c.active.value in t.written;
    }
    assert forall r | r in s.c.urgent :: r in t.c.urgent || r in t.written;
  }

  /** Queueing a flush loses no urgent request, and a pending one only to a flush
      that is not older. */
  lemma QueueingKeeps(s: State, flushed: Edit, edit: Edit)
    ensures var (id, d) := QueuedFlush(s.c, flushed);
      && (IsAmong(s.c.urgent, edit) ==> IsAmong(d.urgent, edit))
      && (IsPending(s, edit) ==>
            || IsAmong(d.urgent, edit) || (d.pending.Some? && d.pending.value.edit == edit)
            || flushed.generation >= edit.generation)
  {
    hide IdOf, InFlight;
    var d := QueuedFlush(s.c, flushed).1;
    assert forall r | r in s.c.urgent :: r in d.urgent;
    if IsPending(s, edit) && d.pending.None? && flushed == edit {
      assert |d.urgent| > 0 ==> d.urgent[|d.urgent| - 1] in d.urgent;
    }
  }

  lemma FoundIsHeld(s: State, edit: Edit)
    requires IdOf(InFlight(s.c), edit).Some? && (s.c.active.Some? ==> s.c.active.value in s.written)
    ensures IsAmong(s.written, edit) || IsAmong(s.c.urgent, edit)
  {
    FoundIsListed(InFlight(s.c), edit);
    var r := Request(IdOf(InFlight(s.c), edit).value, edit);
    QueueHolds(s.c, r);
  }

  lemma FlushedIsQueued(s: State, edit: Edit)
    requires s.c.active.Some? ==> s.c.active.value in s.written
    ensures IsAmong(s.written, edit) || IsAmong(QueuedFlush(s.c, edit).1.urgent, edit)
  {
    if IdOf(InFlight(s.c), edit).Some? {
      FoundIsHeld(s, edit);
    } else {
      QueuedIsInFlight(s.c, edit);
    }
    hide IdOf, InFlight;
  }

  lemma FlushKeeps(s: State, flushed: Edit, edit: Edit)
    requires TimersAreTrue(s.c) && (s.c.active.Some? ==> s.c.active.value in s.written)
    ensures var t := Next(s, Flush(flushed));
      && (IsAmong(s.written, edit) ==> IsAmong(t.written, edit))
      && (IsAmong(s.c.urgent, edit) ==> IsAmong(t.written, edit) || IsAmong(t.c.urgent, edit))
      && (IsPending(s, edit) ==>
            || IsAmong(t.written, edit) || IsAmong(t.c.urgent, edit) || IsPending(t, edit)
            || flushed.generation >= edit.generation)
      && (edit == flushed ==> IsAmong(t.written, edit) || IsAmong(t.c.urgent, edit))
  {
    var stopped := s.(c := s.c.(debounce := false));
    assert InFlight(stopped.c) == InFlight(s.c);
    QueueingKeeps(stopped, flushed, edit);
    FlushedIsQueued(stopped, flushed);
    QueueingKeepsTimers(s.c, flushed);
    hide IdOf, InFlight;
    var (id, queued) := QueuedFlush(stopped.c, flushed);
    hide QueuedFlush, IsAmong, Started;
    var u := stopped.(c := queued.(waiters := queued.waiters + [Waiter(id, |s.asked|)]));
    FlushKeepsActive(stopped.c, flushed);
    StartingMoves(u, edit);
  }

  lemma FlushKeepsActive(c: Controller, edit: Edit)
    ensures QueuedFlush(c, edit).1.active == c.active
  {
    hide IdOf, InFlight;
  }

  lemma StepKeeps(s: State, e: Event, edit: Edit)
    requires TimersAreTrue(s.c) && (s.c.active.Some? ==> s.c.active.value in s.written)
    ensures var t := Next(s, e);
      && (IsAmong(s.written, edit) ==> IsAmong(t.written, edit))
      && (IsAmong(s.c.urgent, edit) ==> IsAmong(t.written, edit) || IsAmong(t.c.urgent, edit))
      && (IsPending(s, edit) ==>
            || IsAmong(t.written, edit) || IsAmong(t.c.urgent, edit) || IsPending(t, edit) || Replaces(e, edit))
      && (e == Schedule(edit) ==> IsPending(t, edit))
      && (e == Flush(edit) ==> IsAmong(t.written, edit) || IsAmong(t.c.urgent, edit))
  {
    match e
    case Schedule(_) =>
    case Flush(flushed) =>
      FlushKeeps(s, flushed, edit);
      hide Next, IsAmong;
    case TimerFires =>
      if s.c.debounce {
        StartingMoves(s.(c := s.c.(debounce := false, pendingReady := true)), edit);
      }
      hide Started, IsAmong;
    case WriteEnds(_) =>
      hide Served, Calls, IsAmong;
    case TaskRuns =>
      StartingMoves(s, edit);
      hide Started, IsAmong;
  }

  /** A flushed edit is written or urgent, from its flush on. */
  lemma {:induction false} NoFlushIsLost(events: seq<Event>, i: nat)
    requires i < |events| && events[i].Flush?
    ensures var s := Run(events); IsAmong(s.written, events[i].edit) || IsAmong(s.c.urgent, events[i].edit)
    decreases |events|
  {
    hide *;
    var k := |events| - 1;
    RunUnfolds(events);
    SoundSoFar(events[..k]);
    StepKeeps(Run(events[..k]), events[k], events[i].edit);
    if i < k {
      NoFlushIsLost(events[..k], i);
    }
  }

  lemma RunUnfolds(events: seq<Event>)
    requires events != []
    ensures Run(events) == Next(Run(events[..|events| - 1]), events[|events| - 1])
  {
    hide Next;
  }

  lemma SoundSoFar(events: seq<Event>)
    ensures var s := Run(events); TimersAreTrue(s.c) && (s.c.active.Some? ==> s.c.active.value in s.written)
  {
    EveryRunIsSound(events);
    hide Run, TimersAreTrue, RunnableIsTaken, IdsAreUnique, WaitersAreServed;
  }

  /** Whatever happens, an edit once requested is written, urgent or pending, unless
      a later edit was scheduled or one not older was flushed. */
  lemma {:induction false} NoEditIsLost(events: seq<Event>, i: nat)
    requires i < |events| && IsRequest(events[i])
    ensures var (s, edit) := (Run(events), events[i].edit);
      || IsAmong(s.written, edit) || IsAmong(s.c.urgent, edit) || IsPending(s, edit)
      || exists j | i < j < |events| :: Replaces(events[j], edit)
    decreases |events|
  {
    hide *;
    RequestIs(events[i]);
    var k := |events| - 1;
    RunUnfolds(events);
    SoundSoFar(events[..k]);
    StepKeeps(Run(events[..k]), events[k], events[i].edit);
    if i < k {
      NoEditIsLost(events[..k], i);
      if j :| i < j < k && Replaces(events[..k][j], events[i].edit) {
        assert Replaces(events[j], events[i].edit);
      }
    }
  }

  lemma RequestIs(e: Event)
    requires IsRequest(e)
    ensures e == Schedule(e.edit) || e == Flush(e.edit)
  {
  }

  /** So at rest, after a careful run, every edit was written or replaced. */
  lemma EveryEditIsWritten(events: seq<Event>, i: nat)
    requires i < |events| && IsRequest(events[i]) && IsCareful(events) && IsAtRest(Run(events))
    ensures var edit := events[i].edit;
      IsAmong(Run(events).written, edit) || exists j | i < j < |events| :: Replaces(events[j], edit)
    ensures events[i].Flush? ==> IsAmong(Run(events).written, events[i].edit)
  {
    RestIsComplete(events, 0);
    NoEditIsLost(events, i);
    if events[i].Flush? {
      NoFlushIsLost(events, i);
    }
    hide Run, IsCareful, IsAtRest;
  }

  // ---- Nothing else is written

  predicate AreRequested(requests: seq<Request>, requested: seq<Edit>) {
    forall r | r in requests :: r.edit in requested
  }

  predicate OnlyRequestsAreThere(s: State) {
    && AreRequested(s.written, s.requested) && AreRequested(s.c.urgent, s.requested)
    && (s.c.pending.Some? ==> s.c.pending.value.edit in s.requested)
  }

  lemma StartingAddsNothing(s: State)
    requires OnlyRequestsAreThere(s)
    ensures OnlyRequestsAreThere(WithStart(s, Started(s.c)))
  {
  }

  lemma QueueingAddsTheFlush(s: State, edit: Edit)
    requires OnlyRequestsAreThere(s)
    ensures OnlyRequestsAreThere(s.(c := QueuedFlush(s.c, edit).1, requested := s.requested + [edit]))
  {
    hide IdOf, InFlight;
    var t := s.(c := QueuedFlush(s.c, edit).1, requested := s.requested + [edit]);
    assert forall r | r in t.c.urgent :: r in s.c.urgent || r.edit == edit || s.c.pending == Some(r);
  }

  lemma StepAddsTheRequest(s: State, e: Event)
    requires OnlyRequestsAreThere(s)
    ensures OnlyRequestsAreThere(Next(s, e))
  {
    match e
    case Schedule(_) =>
    case Flush(edit) =>
      var stopped := s.(c := s.c.(debounce := false));
      QueueingAddsTheFlush(stopped, edit);
      hide QueuedFlush, Started, AreRequested;
      var (id, queued) := QueuedFlush(stopped.c, edit);
      FlushKeepsActive(stopped.c, edit);
      var u := s.(c := queued.(waiters := queued.waiters + [Waiter(id, |s.asked|)]), requested := s.requested + [edit]);
      StartingAddsNothing(u);
    case TimerFires =>
      StartingAddsNothing(s.(c := s.c.(debounce := false, pendingReady := true)));
      hide Started, AreRequested;
    case WriteEnds(_) =>
      hide Served, Calls, AreRequested;
    case TaskRuns =>
      StartingAddsNothing(s);
      hide Started, AreRequested;
  }

  /** Every write carries an edit that was scheduled or flushed before. */
  lemma {:induction false} WritesAreRequested(events: seq<Event>)
    ensures OnlyRequestsAreThere(Run(events))
    decreases |events|
  {
    if events != [] {
      WritesAreRequested(events[..|events| - 1]);
      StepAddsTheRequest(Run(events[..|events| - 1]), events[|events| - 1]);
      hide Next, OnlyRequestsAreThere;
    }
  }
}
