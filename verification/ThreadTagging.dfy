// Tagging whole threads (crates/notm-notmuch/src/database.rs): message
// identifiers are collected page by page against one database revision, which
// other writers may move between any two calls, and nothing is tagged unless
// the revision has stayed in place.
module ThreadTagging {
  import opened MailText

  const PAGE_SIZE := 256
  const MAX_MESSAGES := 4096

  datatype Revision = Revision(uuid: string, number: nat)

  /** The database at one moment: the message identifiers of each thread. */
  datatype Snapshot = Snapshot(revision: Revision, threads: map<string, seq<string>>)

  datatype Error = SnapshotChanged | HasNul | LimitExceeded(total: nat) | Inconsistent | Foreign | SnapshotFailed

  datatype Result<T> = Ok(value: T) | Err(error: Error)

  datatype Page = Page(ids: seq<string>, total: nat, offset: nat, limit: nat, revision: Revision)

  datatype Report = Report(threadIds: seq<string>, missing: seq<string>, failed: seq<string>, matched: nat)

  // ---- Threads and revisions

  function Messages(s: Snapshot, thread: string): seq<string> {
    if thread in s.threads then s.threads[thread] else []
  }

  function Slice(ids: seq<string>, offset: nat, limit: nat): seq<string> {
    if offset >= |ids| then [] else ids[offset..offset + Min(limit, |ids| - offset)]
  }

  predicate ContainsNul(s: string) {
    '\0' in s
  }

  predicate Distinct(ids: seq<string>) {
    forall i, j | 0 <= i < j < |ids| :: ids[i] != ids[j]
  }

  /** Revisions do not return: between two equal ones nothing was committed. */
  ghost predicate IsSteady(world: nat -> Snapshot) {
    forall i: nat, j: nat, k: nat | i <= j <= k && world(i).revision == world(k).revision :: world(j) == world(i)
  }

  lemma SteadyBetween(world: nat -> Snapshot, i: nat, j: nat, k: nat)
    requires IsSteady(world) && i <= j <= k && world(i).revision == world(k).revision
    ensures world(j) == world(i) == world(k)
  {
  }

  predicate AnyRepeats(s: Snapshot, threads: seq<string>) {
    exists t | t in threads :: !Distinct(Messages(s, t))
  }

  // ---- Classifying threads

  function Unique(ids: seq<string>): seq<string> {
    if ids == [] then []
    else
      var front, last := Unique(ids[..|ids| - 1]), ids[|ids| - 1];
      if last in front then front else front + [last]
  }

  predicate IsFailed(s: Snapshot, thread: string) {
    ContainsNul(thread) || |Messages(s, thread)| > MAX_MESSAGES
  }

  predicate IsMissing(s: Snapshot, thread: string) {
    !IsFailed(s, thread) && Messages(s, thread) == []
  }

  predicate IsMatched(s: Snapshot, thread: string) {
    !IsFailed(s, thread) && Messages(s, thread) != []
  }

  function Chosen(threads: seq<string>, chosen: string -> bool): seq<string> {
    if threads == [] then []
    else
      Chosen(threads[..|threads| - 1], chosen)
      + if chosen(threads[|threads| - 1]) then [threads[|threads| - 1]] else []
  }

  function Targets(s: Snapshot, threads: seq<string>): set<string> {
    if threads == [] then {}
    else
      var front, last := Targets(s, threads[..|threads| - 1]), threads[|threads| - 1];
      if IsMatched(s, last) then front + (set id | id in Messages(s, last)) else front
  }

  function ReportOf(s: Snapshot, threads: seq<string>): Report {
    Report(threads, Chosen(threads, t => IsMissing(s, t)), Chosen(threads, t => IsFailed(s, t)),
           |Chosen(threads, t => IsMatched(s, t))|)
  }

  lemma {:induction false} UniqueIsTheSet(ids: seq<string>)
    ensures Distinct(Unique(ids)) && forall id :: id in Unique(ids) <==> id in ids
  {
    if ids != [] {
      UniqueIsTheSet(ids[..|ids| - 1]);
      assert ids == ids[..|ids| - 1] + [ids[|ids| - 1]];
    }
  }

  lemma {:induction false} ChosenAreThose(threads: seq<string>, chosen: string -> bool)
    ensures forall t :: t in Chosen(threads, chosen) <==> t in threads && chosen(t)
    ensures Distinct(threads) ==> Distinct(Chosen(threads, chosen))
  {
    if threads != [] {
      var front, last := threads[..|threads| - 1], threads[|threads| - 1];
      assert threads == front + [last];
      ChosenAreThose(front, chosen);
    }
  }

  /** The targets are exactly the messages of the matched threads. */
  lemma {:induction false} TargetsAreTheUnion(s: Snapshot, threads: seq<string>)
    ensures forall id ::
      id in Targets(s, threads) <==> exists t | t in threads && IsMatched(s, t) :: id in Messages(s, t)
  {
    if threads != [] {
      var front, last := threads[..|threads| - 1], threads[|threads| - 1];
      assert threads == front + [last];
      TargetsAreTheUnion(s, front);
    }
  }

  /** Every distinct requested thread is matched, missing or failed, in one of them only. */
  lemma {:induction false} ReportIsPartition(s: Snapshot, threads: seq<string>)
    ensures var r := ReportOf(s, threads);
      && |threads| == r.matched + |r.missing| + |r.failed|
      && (forall t | t in threads :: IsMatched(s, t) <==> t !in r.missing && t !in r.failed)
      && (forall t | t in r.missing :: t !in r.failed)
  {
    ChosenAreThose(threads, t => IsMissing(s, t));
    ChosenAreThose(threads, t => IsFailed(s, t));
    if threads != [] {
      var front, last := threads[..|threads| - 1], threads[|threads| - 1];
      ReportIsPartition(s, front);
    }
  }

  /** Nobody committed and no call failed between two moments. */
  ghost predicate IsCalm(world: nat -> Snapshot, broken: nat -> bool, from: nat, to: nat) {
    forall t: nat | from <= t < to :: world(t).revision == world(from).revision && !broken(t)
  }

  lemma CalmIsHereditary(world: nat -> Snapshot, broken: nat -> bool, from: nat, start: nat, to: nat)
    requires from <= start < to
    ensures IsCalm(world, broken, from, to) ==>
      world(start).revision == world(from).revision && IsCalm(world, broken, start, to)
  {
  }

  lemma EmptyIsDistinct()
    ensures Distinct([])
  {
  }

  lemma DistinctToEnd(ids: seq<string>, k: nat)
    requires k <= |ids|
    ensures Distinct(ids) ==> Distinct(ids[..k])
  {
  }

  class Database {
    /** What each call finds, and whether it fails, by the moment it is made. */
    const world: nat -> Snapshot
    const broken: nat -> bool
    var clock: nat
    /** The message sets handed over for tagging. */
    var batches: seq<set<string>>

    constructor (world: nat -> Snapshot, broken: nat -> bool)
      ensures this.world == world && this.broken == broken && clock == 0 && batches == []
    {
      this.world, this.broken, this.clock, this.batches := world, broken, 0, [];
    }

    method ObservedRevision() returns (revision: Revision)
      modifies this`clock
      ensures clock == old(clock) + 1 && revision == world(old(clock)).revision
    {
      revision := world(clock).revision;
      clock := clock + 1;
    }

    method CountMessages(thread: string) returns (total: Option<nat>)
      modifies this`clock
      ensures clock == old(clock) + 1
      ensures total == if broken(old(clock)) then None else Some(|Messages(world(old(clock)), thread)|)
    {
      total := if broken(clock) then None else Some(|Messages(world(clock), thread)|);
      clock := clock + 1;
    }

    method SearchMessageIds(thread: string, offset: nat, limit: nat) returns (ids: Option<seq<string>>)
      requires limit > 0
      modifies this`clock
      ensures clock == old(clock) + 1
      ensures ids ==
        if broken(old(clock)) then None else Some(Slice(Messages(world(old(clock)), thread), offset, limit))
    {
      var now := clock;
      clock := clock + 1;
      if broken(now) {
        return None;
      }
      var messages := Messages(world(now), thread);
      var found: seq<string> := [];
      var skipped: nat := 0;
      while skipped < |messages| && |found| < limit
        invariant skipped <= |messages|
        invariant found == if skipped <= offset then [] else messages[offset..skipped]
        invariant |found| <= limit
      {
        if skipped >= offset && |found| < limit {
          found := found + [messages[skipped]];
        }
        skipped := skipped + 1;
      }
      ids := Some(found);
    }

    /** A page is taken at the expected revision, or there is no page. */
    method ThreadMessageIdsPage(thread: string, offset: nat, limit: nat, expected: Revision)
      returns (page: Result<Page>)
      requires IsSteady(world)
      modifies this`clock
      ensures clock > old(clock)
      ensures page.Ok? ==>
        var ids := Messages(world(old(clock)), thread);
        && !ContainsNul(thread) && page.value == Page(Slice(ids, offset, limit), |ids|, offset, limit, expected)
        && world(old(clock)).revision == expected && world(clock - 1) == world(old(clock))
      ensures page.Err? && world(old(clock)).revision == expected ==>
        if page.error.HasNul? then ContainsNul(thread) && clock == old(clock) + 1
        else (page.error.SnapshotChanged? || page.error.Foreign?) && !IsCalm(world, broken, old(clock), clock)
      ensures page.Err? && world(old(clock)).revision != expected ==> page.error.SnapshotChanged?
    {
      ghost var start := clock;
      hide IsSteady;
      var observed := ObservedRevision();
      if observed != expected {
        return Err(SnapshotChanged);
      }
      if ContainsNul(thread) {
        return Err(HasNul);
      }
      var total := CountMessages(thread);
      if total.None? {
        return Err(Foreign);
      }
      var ids: seq<string> := [];
      if limit != 0 && offset < total.value {
        var found := SearchMessageIds(thread, offset, limit);
        if found.None? {
          return Err(Foreign);
        }
        ids := found.value;
      }
      observed := ObservedRevision();
      if observed != expected {
        return Err(SnapshotChanged);
      }
      SteadyBetween(world, start, start + 1, clock - 1);
      SteadyBetween(world, start, clock - 2, clock - 1);
      var expectedLength := Min(if total.value < offset then 0 else total.value - offset, limit);
      if |ids| != expectedLength {
        assert false;
        return Err(Inconsistent);
      }
      page := Ok(Page(ids, total.value, offset, limit, observed));
    }

    /** Appends a page unless it repeats a message. */
    static method AddPage(loaded: seq<string>, ids: seq<string>, seen: set<string>)
      returns (unique: bool, all: seq<string>, known: set<string>)
      requires Distinct(ids) && forall id :: id in seen <==> id in ids
      ensures unique <==> Distinct(ids + loaded)
      ensures unique ==> all == ids + loaded && forall id :: id in known <==> id in all
    {
      all, known := ids, seen;
      for i := 0 to |loaded|
        invariant all == ids + loaded[..i] && Distinct(all) && forall id :: id in known <==> id in all
      {
        if loaded[i] in known {
          ghost var k :| 0 <= k < |all| && all[k] == loaded[i];
          assert (ids + loaded)[k] == (ids + loaded)[|ids| + i];
          return false, all, known;
        }
        all := all + [loaded[i]];
        known := known + {loaded[i]};
      }
      assert loaded[..|loaded|] == loaded;
      unique := true;
    }

    /** The whole thread at the expected revision, each message once, or an error. */
    method ThreadMessageIdsBounded(thread: string, maximum: nat, expected: Revision) returns (ids: Result<seq<string>>)
      requires IsSteady(world)
      modifies this`clock
      ensures clock > old(clock)
      ensures ids.Ok? ==>
        && world(old(clock)).revision == expected && world(clock - 1) == world(old(clock))
        && !ContainsNul(thread) && ids.value == Messages(world(old(clock)), thread)
        && Distinct(ids.value) && |ids.value| <= maximum
      ensures ids.Err? && world(old(clock)).revision == expected ==>
        var messages := Messages(world(old(clock)), thread);
        match ids.error
        case HasNul => ContainsNul(thread) && world(clock - 1) == world(old(clock))
        case LimitExceeded(total) =>
          !ContainsNul(thread) && total == |messages| > maximum && world(clock - 1) == world(old(clock))
        case Inconsistent => !Distinct(messages)
        case SnapshotFailed => false
        case _ => !IsCalm(world, broken, old(clock), clock)
      ensures ids.Err? && world(old(clock)).revision != expected ==> ids.error.SnapshotChanged?
    {
      ghost var start := clock;
      hide IsSteady, IsCalm, Distinct, Messages;
      var first := ThreadMessageIdsPage(thread, 0, 0, expected);
      if first.Err? {
        CalmIsHereditary(world, broken, start, start, clock);
        return Err(first.error);
      }
      var expectedTotal := first.value.total;
      if expectedTotal > maximum {
        return Err(LimitExceeded(expectedTotal));
      }
      ghost var messages := Messages(world(start), thread);
      var messageIds: seq<string> := [];
      var uniqueIds: set<string> := {};
      var offset: nat := 0;
      EmptyIsDistinct();
      while offset < expectedTotal
        invariant clock > start && world(clock - 1) == world(start) && world(start).revision == expected
        invariant offset == |messageIds| <= expectedTotal == |messages| && messageIds == messages[..offset]
        invariant Distinct(messageIds) && forall id :: id in uniqueIds <==> id in messageIds
      {
        ghost var from := clock;
        var pageLimit := Min(PAGE_SIZE, expectedTotal - offset);
        var page := ThreadMessageIdsPage(thread, offset, pageLimit, expected);
        if page.Err? {
          CalmIsHereditary(world, broken, start, from, clock);
          return Err(page.error);
        }
        SteadyBetween(world, start, from, clock - 1);
        if page.value.revision != expected || page.value.total != expectedTotal
           || page.value.offset != |messageIds| || |page.value.ids| > page.value.limit {
          assert false;
          return Err(Inconsistent);
        }
        var loaded := page.value.ids;
        assert loaded == messages[offset..offset + pageLimit];
        ghost var before := messageIds;
        var unique;
        unique, messageIds, uniqueIds := AddPage(loaded, messageIds, uniqueIds);
        assert before + loaded == messages[..offset + pageLimit];
        if !unique {
          DistinctToEnd(messages, offset + pageLimit);
          return Err(Inconsistent);
        }
        offset := offset + |loaded|;
      }
      assert messages[..offset] == messages;
      ids := Ok(messageIds);
    }

    method UniqueThreads(threadIds: seq<string>) returns (unique: seq<string>)
      ensures unique == Unique(threadIds)
    {
      var seen: set<string> := {};
      unique := [];
      for i := 0 to |threadIds|
        invariant unique == Unique(threadIds[..i]) && forall id :: id in seen <==> id in unique
      {
        assert threadIds[..i + 1][..i] == threadIds[..i];
        if threadIds[i] !in seen {
          seen := seen + {threadIds[i]};
          unique := unique + [threadIds[i]];
        }
      }
      assert threadIds[..|threadIds|] == threadIds;
    }

    /** One thread after another, all at the same revision. */
    method ResolveThreads(threads: seq<string>, expected: Revision) returns (resolved: Result<(Report, set<string>)>)
      requires IsSteady(world) && clock > 0 && world(clock - 1).revision == expected
      modifies this`clock
      ensures clock >= old(clock)
      ensures resolved.Ok? ==>
        var s := world(old(clock) - 1);
        world(clock - 1) == s && resolved.value == (ReportOf(s, threads), Targets(s, threads))
      ensures resolved.Err? ==>
        || !IsCalm(world, broken, old(clock) - 1, clock)
        || AnyRepeats(world(old(clock) - 1), threads)
    {
      ghost var start := clock - 1;
      ghost var s := world(start);
      hide IsSteady, IsCalm, Distinct, ContainsNul, Targets, Messages, ReportOf;
      var missing: seq<string>, failed: seq<string>, matched: nat := [], [], 0;
      var targets: set<string> := {};
      NothingClassified(s);
      assert threads[..0] == [];
      for k := 0 to |threads|
        invariant clock > start && world(clock - 1) == s
        invariant Report(threads[..k], missing, failed, matched) == ReportOf(s, threads[..k])
        invariant targets == Targets(s, threads[..k])
      {
        ghost var from := clock;
        OneMoreThread(s, threads, k);
        var found := ThreadMessageIdsBounded(threads[k], MAX_MESSAGES, expected);
        CalmIsHereditary(world, broken, start, from, clock);
        if world(from).revision == expected {
          SteadyBetween(world, start, from, from);
        }
        match found {
          case Ok(ids) =>
            if ids == [] {
              missing := missing + [threads[k]];
            } else {
              matched := matched + 1;
              targets := targets + set id | id in ids;
            }
          case Err(error) =>
            match error {
              case SnapshotChanged => return Err(SnapshotChanged);
              case HasNul => failed := failed + [threads[k]];
              case LimitExceeded(_) => failed := failed + [threads[k]];
              case Inconsistent =>
                assert threads[k] in threads && !Distinct(Messages(s, threads[k]));
                return Err(SnapshotFailed);
              case _ => return Err(SnapshotFailed);
            }
        }
      }
      assert threads[..|threads|] == threads;
      resolved := Ok((Report(threads, missing, failed, matched), targets));
    }

    /** Either an error and nothing handed over, with a reason for it; or exactly the
        messages, at one revision, of every requested thread that could be matched. */
    method ApplyTagsToThreads(threadIds: seq<string>, mutationIsValid: bool) returns (report: Result<Report>)
      requires IsSteady(world)
      modifies this`clock, this`batches
      ensures report.Err? ==> batches == old(batches)
      ensures report.Ok? ==>
        var (s, threads) := (world(old(clock)), Unique(threadIds));
        && clock > old(clock) && world(clock - 1) == s && report.value == ReportOf(s, threads)
        && batches == if Targets(s, threads) == {} then old(batches) else old(batches) + [Targets(s, threads)]
      ensures report.Err? ==>
        var (s, threads) := (world(old(clock)), Unique(threadIds));
        || !mutationIsValid || !IsCalm(world, broken, old(clock), clock)
        || AnyRepeats(s, threads)
        || (exists id :: id in Targets(s, threads) && ContainsNul(id))
    {
      ghost var start := clock;
      hide IsSteady, IsCalm, AnyRepeats, ContainsNul, Unique, Targets, ReportOf;
      if !mutationIsValid {
        return Err(Foreign);
      }
      var threads := UniqueThreads(threadIds);
      var snapshotRevision := ObservedRevision();
      var resolved := ResolveThreads(threads, snapshotRevision);
      if resolved.Err? {
        return Err(resolved.error);
      }
      var targets := resolved.value.1;
      var observed := ObservedRevision();
      CalmIsHereditary(world, broken, start, clock - 1, clock);
      if observed != snapshotRevision {
        return Err(SnapshotChanged);
      }
      if exists id | id in targets :: ContainsNul(id) {
        return Err(SnapshotFailed);
      }
      observed := ObservedRevision();
      CalmIsHereditary(world, broken, start, clock - 1, clock);
      if observed != snapshotRevision {
        return Err(SnapshotChanged);
      }
      SteadyBetween(world, start, start, clock - 1);
      if targets != {} {
        batches := batches + [targets];
      }
      report := Ok(resolved.value.0);
    }
  }

  lemma NothingClassified(s: Snapshot)
    ensures ReportOf(s, []) == Report([], [], [], 0) && Targets(s, []) == {}
  {
  }

  lemma ClassifyingUnfolds(s: Snapshot, threads: seq<string>, k: nat)
    requires k < |threads|
    ensures var (before, t) := (ReportOf(s, threads[..k]), threads[k]);
      ReportOf(s, threads[..k + 1]) ==
        Report(threads[..k + 1],
               before.missing + (if IsMissing(s, t) then [t] else []),
               before.failed + (if IsFailed(s, t) then [t] else []),
               before.matched + (if IsMatched(s, t) then 1 else 0))
    ensures Targets(s, threads[..k + 1]) ==
      Targets(s, threads[..k]) + (if IsMatched(s, threads[k]) then set id | id in Messages(s, threads[k]) else {})
  {
    assert threads[..k + 1][..k] == threads[..k];
    hide IsMissing, IsFailed, IsMatched, Messages;
  }

  /** The report and the targets with one more thread, by what became of it. */
  lemma OneMoreThread(s: Snapshot, threads: seq<string>, k: nat)
    requires k < |threads|
    ensures var (before, t) := (ReportOf(s, threads[..k]), threads[k]);
      var (after, ids) := (ReportOf(s, threads[..k + 1]), Messages(s, t));
      if ContainsNul(t) || |ids| > MAX_MESSAGES then
        after == before.(threadIds := threads[..k + 1], failed := before.failed + [t])
      else if ids == [] then
        after == before.(threadIds := threads[..k + 1], missing := before.missing + [t])
      else
        after == before.(threadIds := threads[..k + 1], matched := before.matched + 1)
    ensures var (t, front) := (threads[k], Targets(s, threads[..k]));
      Targets(s, threads[..k + 1]) ==
        if ContainsNul(t) || |Messages(s, t)| > MAX_MESSAGES then front
        else front + set id | id in Messages(s, t)
  {
    hide ReportOf, Targets, ContainsNul, Messages;
    ClassifyingUnfolds(s, threads, k);
    var before := ReportOf(s, threads[..k]);
    assert before.missing + [] == before.missing && before.failed + [] == before.failed;
  }
}
