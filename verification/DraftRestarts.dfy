// Migrations that are started and interrupted again and again
// (crates/notm-ui/src/draft_io.rs): how many copies of conflicting drafts pile up,
// and when the shared budget refuses to go on.
module DraftRestarts {
  import opened DraftStore
  import opened DraftMigration
  import opened DraftResume

  /** One start: what it listed and drew, and how far its commit loop came. */
  datatype Start = Start(
    currentEntries: seq<Entry>,
    entries: seq<Entry>,
    drawn: seq<Name>,
    written: nat,
    removed: nat)

  function PlanOf(start: Start, parses: string -> bool): Outcome<seq<Move>> {
    if |start.entries| <= |start.drawn| then Plan(start.currentEntries, start.entries, parses, start.drawn)
    else Stopped(false)
  }

  function MovesOf(start: Start, parses: string -> bool): seq<Move> {
    if PlanOf(start, parses).Done? then PlanOf(start, parses).value else []
  }

  /** An admitted start from these directories, interrupted or not. */
  ghost predicate IsStart(start: Start, current: Directory, legacy: Directory, parses: string -> bool) {
    && Lists(start.currentEntries, current) && Lists(start.entries, legacy) && AreNew(start.drawn, current, legacy)
    && PlanOf(start, parses).Done?
    && start.removed <= start.written <= |MovesOf(start, parses)| && start.written <= start.removed + 1
  }

  /** The two directories after a number of starts. */
  ghost function AfterStarts(current: Directory, legacy: Directory, starts: seq<Start>, parses: string -> bool)
    : (Directory, Directory)
  {
    if starts == [] then (current, legacy)
    else
      var front, last := AfterStarts(current, legacy, starts[..|starts| - 1], parses), starts[|starts| - 1];
      var moves := MovesOf(last, parses);
      if last.written <= |moves| && last.removed <= |moves|
      then (Written(front.0, moves[..last.written]), Removed(front.1, moves[..last.removed]))
      else front
  }

  /** Starts one after the other, each from where the one before it stopped. */
  ghost predicate AreStarts(current: Directory, legacy: Directory, starts: seq<Start>, parses: string -> bool) {
    starts == [] ||
    var front := starts[..|starts| - 1];
    var (dir, rest) := AfterStarts(current, legacy, front, parses);
    AreStarts(current, legacy, front, parses) && IsStart(starts[|starts| - 1], dir, rest, parses)
  }

  predicate LeavesCopy(start: Start, parses: string -> bool) {
    IsRepeated(MovesOf(start, parses), start.written, start.removed)
  }

  /** The count and the bytes of the draft a start left under a drawn name beside
      its source, if it did. */
  function CopyOf(start: Start, parses: string -> bool): (nat, nat) {
    if LeavesCopy(start, parses) then (1, |MovesOf(start, parses)[start.removed].bytes|) else (0, 0)
  }

  function Copies(starts: seq<Start>, parses: string -> bool): (nat, nat) {
    if starts == [] then (0, 0)
    else
      var front, last := Copies(starts[..|starts| - 1], parses), CopyOf(starts[|starts| - 1], parses);
      (front.0 + last.0, front.1 + last.1)
  }

  predicate Fits(projected: (nat, nat)) {
    projected.0 <= MAX_DRAFTS && projected.1 <= MAX_TOTAL_BYTES
  }

  lemma StartsUnfold(current: Directory, legacy: Directory, starts: seq<Start>, parses: string -> bool)
    requires starts != [] && AreStarts(current, legacy, starts, parses)
    ensures var (front, last) := (starts[..|starts| - 1], starts[|starts| - 1]);
      var (dir, rest) := AfterStarts(current, legacy, front, parses);
      var moves := MovesOf(last, parses);
      && AreStarts(current, legacy, front, parses) && IsStart(last, dir, rest, parses)
      && last.removed <= last.written <= |moves|
      && AfterStarts(current, legacy, starts, parses)
           == (Written(dir, moves[..last.written]), Removed(rest, moves[..last.removed]))
  {
    hide Lists, AreNew, Plan, Written, Removed, PlanOf, MovesOf;
  }

  lemma CopiesUnfold(starts: seq<Start>, parses: string -> bool)
    requires starts != []
    ensures var (front, last) := (Copies(starts[..|starts| - 1], parses), CopyOf(starts[|starts| - 1], parses));
      Copies(starts, parses) == (front.0 + last.0, front.1 + last.1)
  {
    hide CopyOf;
  }

  lemma NothingStarted(current: Directory, legacy: Directory, parses: string -> bool)
    ensures AfterStarts(current, legacy, [], parses) == (current, legacy) && Copies([], parses) == (0, 0)
  {
  }

  lemma ListingsAgree(a: seq<Entry>, b: seq<Entry>, c: seq<Entry>, d: seq<Entry>, current: Directory, legacy: Directory,
                      parses: string -> bool)
    requires Lists(a, current) && Lists(c, current) && Lists(b, legacy) && Lists(d, legacy)
    ensures Projected(a, b, parses) == Projected(c, d, parses)
  {
    hide *;
    ProjectedIsOfDirectories(a, current, b, legacy, parses);
    ProjectedIsOfDirectories(c, current, d, legacy, parses);
  }

  /** One start more: its copy, if it leaves one, is added to the projection. */
  lemma StartAdds(start: Start, current: Directory, legacy: Directory, parses: string -> bool,
                  after: seq<Entry>, legacyAfter: seq<Entry>, redrawn: seq<Name>)
    requires IsStart(start, current, legacy, parses) && |legacyAfter| <= |redrawn|
    requires var moves := MovesOf(start, parses);
      && Lists(after, Written(current, moves[..start.written]))
      && Lists(legacyAfter, Removed(legacy, moves[..start.removed]))
    ensures var before := Projected(start.currentEntries, start.entries, parses);
      var now := Projected(after, legacyAfter, parses);
      && Fits(before)
      && now == (before.0 + CopyOf(start, parses).0, before.1 + CopyOf(start, parses).1)
      && (Plan(after, legacyAfter, parses, redrawn).Done? <==> Fits(now))
  {
    hide *;
    StartSays(start, current, legacy, parses);
    StartLists(start, current, legacy, parses);
    var before := Projected(start.currentEntries, start.entries, parses);
    var now := Projected(after, legacyAfter, parses);
    FitsMeans(before);
    FitsMeans(now);
    LeavingMeans(start, parses);
    PlanIsAdmitted(start.currentEntries, current, start.entries, legacy, parses, start.drawn);
    InterruptedMigrationResumes(start.currentEntries, current, start.entries, legacy, parses, start.drawn,
                                start.written, start.removed, after, legacyAfter, redrawn);
  }

  lemma FitsMeans(projected: (nat, nat))
    ensures Fits(projected) <==> projected.0 <= MAX_DRAFTS && projected.1 <= MAX_TOTAL_BYTES
  {
  }

  lemma LeavingMeans(start: Start, parses: string -> bool)
    ensures var moves := MovesOf(start, parses);
      var leaves := IsRepeated(moves, start.written, start.removed);
      && (leaves ==> start.removed < |moves|)
      && CopyOf(start, parses) == if leaves then (1, |moves[start.removed].bytes|) else (0, 0)
  {
    hide MovesOf;
  }

  lemma StartSays(start: Start, current: Directory, legacy: Directory, parses: string -> bool)
    requires IsStart(start, current, legacy, parses)
    ensures |start.entries| <= |start.drawn| && AreNew(start.drawn, current, legacy)
    ensures start.removed <= start.written <= |MovesOf(start, parses)| && start.written <= start.removed + 1
    ensures Plan(start.currentEntries, start.entries, parses, start.drawn) == Done(MovesOf(start, parses))
  {
    hide Plan, Lists, AreNew;
  }

  /** After any number of starts, wherever each stopped: the projected store is that
      of the first start and the copies left on the way; and the next start is
      admitted if and only if that fits. */
  lemma {:induction false} CopiesAccumulate(currentEntries: seq<Entry>, current: Directory,
                                            entries: seq<Entry>, legacy: Directory,
                                            starts: seq<Start>, parses: string -> bool,
                                            after: seq<Entry>, legacyAfter: seq<Entry>, redrawn: seq<Name>)
    requires Lists(currentEntries, current) && Lists(entries, legacy) && AreStarts(current, legacy, starts, parses)
    requires var (dir, rest) := AfterStarts(current, legacy, starts, parses);
      Lists(after, dir) && Lists(legacyAfter, rest)
    requires |legacyAfter| <= |redrawn|
    ensures var (first, copies) := (Projected(currentEntries, entries, parses), Copies(starts, parses));
      var now := Projected(after, legacyAfter, parses);
      && now == (first.0 + copies.0, first.1 + copies.1)
      && (starts != [] ==> (Plan(after, legacyAfter, parses, redrawn).Done? <==> Fits(now)))
    decreases |starts|
  {
    hide *;
    NothingStarted(current, legacy, parses);
    if starts == [] {
      ListingsAgree(currentEntries, entries, after, legacyAfter, current, legacy, parses);
    } else {
      var front, last := starts[..|starts| - 1], starts[|starts| - 1];
      var (dir, rest) := AfterStarts(current, legacy, front, parses);
      StartsUnfold(current, legacy, starts, parses);
      CopiesUnfold(starts, parses);
      StartLists(last, dir, rest, parses);
      CopiesAccumulate(currentEntries, current, entries, legacy, front, parses, last.currentEntries, last.entries,
                       last.drawn);
      StartAdds(last, dir, rest, parses, after, legacyAfter, redrawn);
    }
  }

  lemma StartLists(start: Start, current: Directory, legacy: Directory, parses: string -> bool)
    requires IsStart(start, current, legacy, parses)
    ensures Lists(start.currentEntries, current) && Lists(start.entries, legacy)
    ensures |start.entries| <= |start.drawn| && PlanOf(start, parses).Done?
  {
    hide Plan, Lists, AreNew;
  }

  /** So the copies are few: all but the last one of them left room. */
  lemma CopiesAreFew(currentEntries: seq<Entry>, current: Directory, entries: seq<Entry>, legacy: Directory,
                     starts: seq<Start>, parses: string -> bool)
    requires Lists(currentEntries, current) && Lists(entries, legacy) && AreStarts(current, legacy, starts, parses)
    requires starts != []
    ensures var (first, copies) := (Projected(currentEntries, entries, parses), Copies(starts, parses));
      && first.0 + copies.0 <= MAX_DRAFTS + 1
      && first.1 + copies.1 <= MAX_TOTAL_BYTES + MAX_DRAFT_BYTES
  {
    hide *;
    var front, last := starts[..|starts| - 1], starts[|starts| - 1];
    var (dir, rest) := AfterStarts(current, legacy, front, parses);
    StartsUnfold(current, legacy, starts, parses);
    StartLists(last, dir, rest, parses);
    CopiesUnfold(starts, parses);
    CopiesAccumulate(currentEntries, current, entries, legacy, front, parses, last.currentEntries, last.entries,
                     last.drawn);
    StartFits(last, dir, rest, parses);
  }

  lemma StartFits(start: Start, current: Directory, legacy: Directory, parses: string -> bool)
    requires IsStart(start, current, legacy, parses)
    ensures var before := Projected(start.currentEntries, start.entries, parses);
      && before.0 <= MAX_DRAFTS && before.1 <= MAX_TOTAL_BYTES
    ensures CopyOf(start, parses).0 <= 1 && CopyOf(start, parses).1 <= MAX_DRAFT_BYTES
  {
    StartSays(start, current, legacy, parses);
    StartLists(start, current, legacy, parses);
    PlanIsAdmitted(start.currentEntries, current, start.entries, legacy, parses, start.drawn);
    StartIsPlanned(start, current, legacy, parses);
    var moves := MovesOf(start, parses);
    if LeavesCopy(start, parses) {
      DestinationIsNew(current, legacy, moves, start.removed);
    }
    hide Lists, AreNew, Plan, Projected, IsPlanned;
  }

  lemma StartIsPlanned(start: Start, current: Directory, legacy: Directory, parses: string -> bool)
    requires IsStart(start, current, legacy, parses)
    ensures IsPlanned(current, legacy, MovesOf(start, parses))
  {
    StartSays(start, current, legacy, parses);
    hide Lists, AreNew, Plan, IsPlanned, MovesOf;
    PlanIsPlanned(start.currentEntries, current, start.entries, legacy, parses, start.drawn);
  }
}
