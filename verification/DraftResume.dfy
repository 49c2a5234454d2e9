// Starting an interrupted migration again (crates/notm-ui/src/draft_io.rs): what
// the next plan finds when the commit loop stopped after some write or removal.
module DraftResume {
  import opened MailText
  import opened DraftStore
  import opened DraftMigration

  /** The same draft is in both directories under this name. */
  predicate IsTwice(current: Directory, legacy: Directory, parses: string -> bool, name: Name) {
    && name in legacy && IsMovable(legacy[name], parses)
    && name in current && current[name].content == legacy[name].content
  }

  ghost function Twice(current: Directory, legacy: Directory, parses: string -> bool): Directory {
    map name | name in legacy && IsTwice(current, legacy, parses, name) :: legacy[name]
  }

  lemma DuplicateIsTwice(e: Entry, entries: seq<Entry>, current: Directory, legacy: Directory, parses: string -> bool)
    requires Lists(entries, current) && e.name in legacy && legacy[e.name] == e.file
    ensures IsDuplicate(e, entries, parses) <==> IsTwice(current, legacy, parses, e.name)
  {
    hide IsMovable;
    if e.name in current {
      assert Entry(e.name, current[e.name]) in entries;
    }
  }

  lemma TwiceWithout(current: Directory, legacy: Directory, parses: string -> bool, name: Name)
    requires name in legacy
    ensures Twice(current, legacy - {name}, parses) == Twice(current, legacy, parses) - {name}
    ensures name in Twice(current, legacy, parses) <==> IsTwice(current, legacy, parses, name)
    ensures name in Twice(current, legacy, parses) ==> Twice(current, legacy, parses)[name] == legacy[name]
  {
    hide IsMovable;
  }

  /** What a migration adds to the current directory's count and bytes is the
      legacy directory without the drafts that are there twice. */
  lemma {:induction false} AddedIsTheRest(currentEntries: seq<Entry>, current: Directory, entries: seq<Entry>,
                                          legacy: Directory, parses: string -> bool)
    requires Lists(currentEntries, current) && Lists(entries, legacy)
    ensures var (added, twice) := (Added(entries, currentEntries, parses), Twice(current, legacy, parses));
      added.0 + |twice| == |legacy| && added.1 + Usage(twice, false) == Usage(legacy, false)
    decreases |entries|
  {
    hide Lists, Charge, IsDuplicate, Usage, IsTwice;
    if entries == [] {
      NothingListed(legacy);
      NothingTwice(current, parses);
    } else {
      var front, last := entries[..|entries| - 1], entries[|entries| - 1];
      FrontLists(entries, legacy);
      AddedIsTheRest(currentEntries, current, front, legacy - {last.name}, parses);
      DuplicateIsTwice(last, currentEntries, current, legacy, parses);
      TwiceWithout(current, legacy, parses, last.name);
      hide Twice;
      UsageWithout(legacy, last.name, false);
      SizeWithout(legacy, last.name);
      var twice := Twice(current, legacy, parses);
      if last.name in twice {
        UsageWithout(twice, last.name, false);
        SizeWithout(twice, last.name);
      } else {
        assert twice - {last.name} == twice;
      }
    }
  }

  lemma NothingTwice(current: Directory, parses: string -> bool)
    ensures Twice(current, map[], parses) == map[] && Usage(map[], false) == 0
  {
  }

  // ---- Progress of the commit loop

  /** Everything movable has its move. */
  ghost predicate MovesAreAll(moves: seq<Move>, legacy: Directory, parses: string -> bool) {
    forall name | name in legacy ::
      IsMovable(legacy[name], parses) <==> exists i :: 0 <= i < |moves| && moves[i].source == name
  }

  lemma SourceIsTwice(current: Directory, legacy: Directory, moves: seq<Move>, k: nat, parses: string -> bool)
    requires IsPlanned(current, legacy, moves) && MovesAreAll(moves, legacy, parses) && k < |moves|
    ensures moves[k].source in legacy && IsMovable(legacy[moves[k].source], parses)
    ensures IsTwice(current, legacy, parses, moves[k].source) <==> moves[k].destination.None?
  {
    assert moves[k] in moves;
    assert moves[k].source == moves[k].source;
    hide IsMovable;
  }

  lemma TakingOne(twice: Directory, m: Move)
    requires m.source in twice <==> m.destination.None?
    requires m.source in twice ==> twice[m.source].content == Some(m.bytes) && |m.bytes| <= MAX_DRAFT_BYTES
    ensures var rest := twice - {m.source};
      && |rest| + 1 == |twice| + (if m.destination.Some? then 1 else 0)
      && Usage(rest, false) + |m.bytes| == Usage(twice, false) + (if m.destination.Some? then |m.bytes| else 0)
  {
    hide Usage, Charge;
    if m.source in twice {
      UsageWithout(twice, m.source, false);
      SizeWithout(twice, m.source);
      WholeFileCharge(twice[m.source], m.bytes);
    } else {
      assert twice - {m.source} == twice;
    }
  }

  lemma CountsUnfold(moves: seq<Move>, k: nat)
    requires 0 < k <= |moves|
    ensures var m := moves[k - 1];
      && Migrated(moves[..k]) == Migrated(moves[..k - 1]) + (if m.destination.Some? then 1 else 0)
      && MovedBytes(moves[..k]) == MovedBytes(moves[..k - 1]) + |m.bytes|
      && WrittenBytes(moves[..k]) == WrittenBytes(moves[..k - 1]) + (if m.destination.Some? then |m.bytes| else 0)
    ensures forall legacy :: Removed(legacy, moves[..k]) == Removed(legacy, moves[..k - 1]) - {moves[k - 1].source}
  {
    assert moves[..k][..k - 1] == moves[..k - 1];
  }

  lemma NothingRemoved(legacy: Directory, moves: seq<Move>)
    ensures Removed(legacy, moves[..0]) == legacy
    ensures Migrated(moves[..0]) == 0 && MovedBytes(moves[..0]) == 0 && WrittenBytes(moves[..0]) == 0
  {
  }

  /** Removing the first sources takes the duplicates among them and no others. */
  lemma {:induction false} RemovingKeepsTwice(current: Directory, legacy: Directory, moves: seq<Move>, k: nat,
                                              parses: string -> bool)
    requires IsPlanned(current, legacy, moves) && MovesAreAll(moves, legacy, parses) && k <= |moves|
    ensures var twice := Twice(current, Removed(legacy, moves[..k]), parses);
      && |twice| + k == |Twice(current, legacy, parses)| + Migrated(moves[..k])
      && Usage(twice, false) + MovedBytes(moves[..k])
           == Usage(Twice(current, legacy, parses), false) + WrittenBytes(moves[..k])
  {
    hide *;
    if k == 0 {
      NothingRemoved(legacy, moves);
    } else {
      var before, m := Removed(legacy, moves[..k - 1]), moves[k - 1];
      RemovingKeepsTwice(current, legacy, moves, k - 1, parses);
      RemovingTakes(current, legacy, moves, k - 1);
      RemoveStep(before, current, legacy, moves, k - 1);
      TwiceWithout(current, before, parses, m.source);
      TwiceIsAlike(current, legacy, moves, k - 1, m.source, parses);
      SourceIsTwice(current, legacy, moves, k - 1, parses);
      CountsUnfold(moves, k);
      TakingOne(Twice(current, before, parses), m);
    }
  }

  lemma TwiceIsAlike(current: Directory, legacy: Directory, moves: seq<Move>, k: nat, name: Name,
                     parses: string -> bool)
    requires k <= |moves| && IsRemoved(Removed(legacy, moves[..k]), legacy, moves, k)
    requires name in Removed(legacy, moves[..k])
    ensures IsTwice(current, Removed(legacy, moves[..k]), parses, name) <==> IsTwice(current, legacy, parses, name)
  {
    hide IsMovable, Removed;
  }

  /** A draft that was written under its own name and not yet removed. */
  ghost predicate IsInPlace(moves: seq<Move>, written: nat, removed: nat) {
    removed < written <= |moves| && moves[removed].destination == Some(moves[removed].source)
  }

  /** Written files change for no legacy name whether it is there twice, but for
      the one that was just written under it. */
  lemma WritingKeepsTwice(current: Directory, legacy: Directory, moves: seq<Move>, written: nat, removed: nat,
                          name: Name, parses: string -> bool)
    requires IsPlanned(current, legacy, moves) && MovesAreAll(moves, legacy, parses)
    requires removed <= written <= |moves| && written <= removed + 1
    requires name in Removed(legacy, moves[..removed])
    ensures var rest := Removed(legacy, moves[..removed]);
      IsTwice(Written(current, moves[..written]), rest, parses, name) <==>
        IsTwice(current, rest, parses, name) || (IsInPlace(moves, written, removed) && name == moves[removed].source)
  {
    var dir, rest := Written(current, moves[..written]), Removed(legacy, moves[..removed]);
    WritingAdds(current, legacy, moves, written);
    RemovingTakes(current, legacy, moves, removed);
    if removed < written {
      SourceIsTwice(current, legacy, moves, removed, parses);
    }
    if name !in current && name in dir {
      HomeIsRemovedOrNext(dir, current, legacy, moves, written, removed, name);
    }
    hide Written, Removed, IsMovable, Usage, MovesAreAll;
    if removed < written {
      assert moves[removed] in moves;
    }
  }

  lemma HomeOf(dir: Directory, current: Directory, moves: seq<Move>, written: nat, name: Name) returns (i: nat)
    requires written <= |moves| && IsWritten(dir, current, moves, written) && name in dir && name !in current
    ensures i < written && moves[i].destination == Some(name)
  {
    i :| i < written && moves[i].destination == Some(name);
  }

  /** A legacy name in the current directory is the moved draft's own. */
  lemma HomeIsOwn(current: Directory, legacy: Directory, moves: seq<Move>, i: nat, name: Name)
    requires IsPlanned(current, legacy, moves) && i < |moves| && moves[i].destination == Some(name) && name in legacy
    ensures moves[i].source == name
  {
    assert moves[i] in moves;
    assert IsNewHome(moves[i], name, current, legacy);
    hide IsPlanned;
  }

  lemma HomeIsRemovedOrNext(dir: Directory, current: Directory, legacy: Directory, moves: seq<Move>, written: nat,
                            removed: nat, name: Name)
    requires IsPlanned(current, legacy, moves) && removed <= written <= |moves| && written <= removed + 1
    requires IsWritten(dir, current, moves, written) && name in dir && name !in current && name in legacy
    requires forall i | 0 <= i < removed :: moves[i].source != name
    ensures IsInPlace(moves, written, removed) && name == moves[removed].source
  {
    hide IsPlanned, IsWritten;
    var i := HomeOf(dir, current, moves, written, name);
    HomeIsOwn(current, legacy, moves, i, name);
  }

  // ---- The next plan

  /** What current and legacy drafts would come to if all were migrated. */
  function Projected(current: seq<Entry>, legacy: seq<Entry>, parses: string -> bool): (nat, nat) {
    var (count, bytes) := Added(legacy, current, parses);
    (|current| + count, Total(current, false) + bytes)
  }

  lemma ProjectedIsOfDirectories(currentEntries: seq<Entry>, current: Directory, entries: seq<Entry>, legacy: Directory,
                                 parses: string -> bool)
    requires Lists(currentEntries, current) && Lists(entries, legacy)
    ensures var (projected, twice) := (Projected(currentEntries, entries, parses), Twice(current, legacy, parses));
      && projected.0 + |twice| == |current| + |legacy|
      && projected.1 + Usage(twice, false) == Usage(current, false) + Usage(legacy, false)
  {
    hide Lists, Usage, Total, Twice, Added;
    ListingIsWhole(currentEntries, current, false);
    AddedIsTheRest(currentEntries, current, entries, legacy, parses);
  }

  /** A draft that was written under a drawn name and not yet removed: the next
      plan cannot tell that it is there already. */
  predicate IsRepeated(moves: seq<Move>, written: nat, removed: nat) {
    && removed < written <= |moves|
    && moves[removed].destination.Some? && moves[removed].destination.value != moves[removed].source
  }

  lemma TwiceAfter(current: Directory, legacy: Directory, moves: seq<Move>, written: nat, removed: nat,
                   parses: string -> bool)
    requires IsPlanned(current, legacy, moves) && MovesAreAll(moves, legacy, parses)
    requires removed <= written <= |moves| && written <= removed + 1
    ensures var rest := Removed(legacy, moves[..removed]);
      var (after, before) := (Twice(Written(current, moves[..written]), rest, parses), Twice(current, rest, parses));
      if IsInPlace(moves, written, removed)
      then |after| == |before| + 1 && Usage(after, false) == Usage(before, false) + |moves[removed].bytes|
      else after == before
  {
    hide *;
    InPlaceSays(moves, written, removed);
    var dir, rest := Written(current, moves[..written]), Removed(legacy, moves[..removed]);
    var after, before := Twice(dir, rest, parses), Twice(current, rest, parses);
    forall name | name in rest
      ensures IsTwice(dir, rest, parses, name) <==>
        IsTwice(current, rest, parses, name) || (IsInPlace(moves, written, removed) && name == moves[removed].source)
    {
      WritingKeepsTwice(current, legacy, moves, written, removed, name, parses);
    }
    if IsInPlace(moves, written, removed) {
      var m := moves[removed];
      RemovingTakes(current, legacy, moves, removed);
      RemoveStep(rest, current, legacy, moves, removed);
      SourceIsTwice(current, legacy, moves, removed, parses);
      TwiceIsAlike(current, legacy, moves, removed, m.source, parses);
      OneMoreTwice(dir, current, rest, parses, m.source, m.bytes);
    } else {
      SameTwice(dir, current, rest, parses);
    }
  }

  lemma InPlaceSays(moves: seq<Move>, written: nat, removed: nat)
    requires written <= |moves|
    ensures IsInPlace(moves, written, removed) ==>
      removed < written && moves[removed].destination == Some(moves[removed].source)
  {
  }

  lemma SameTwice(dir: Directory, current: Directory, legacy: Directory, parses: string -> bool)
    requires forall name | name in legacy ::
      IsTwice(dir, legacy, parses, name) <==> IsTwice(current, legacy, parses, name)
    ensures Twice(dir, legacy, parses) == Twice(current, legacy, parses)
  {
    hide IsTwice;
  }

  lemma OneMoreTwice(dir: Directory, current: Directory, legacy: Directory, parses: string -> bool, extra: Name,
                     bytes: string)
    requires extra in legacy && legacy[extra].content == Some(bytes) && |bytes| <= MAX_DRAFT_BYTES
    requires !IsTwice(current, legacy, parses, extra)
    requires forall name | name in legacy ::
      IsTwice(dir, legacy, parses, name) <==> IsTwice(current, legacy, parses, name) || name == extra
    ensures var (after, before) := (Twice(dir, legacy, parses), Twice(current, legacy, parses));
      |after| == |before| + 1 && Usage(after, false) == Usage(before, false) + |bytes|
  {
    hide IsTwice, Usage, Charge;
    var after, before := Twice(dir, legacy, parses), Twice(current, legacy, parses);
    assert after == before[extra := legacy[extra]];
    UsageWith(before, extra, legacy[extra], false);
    WholeFileCharge(legacy[extra], bytes);
    SizeWithout(after, extra);
    assert after - {extra} == before;
  }

  lemma WrittenIsReadable(currentEntries: seq<Entry>, current: Directory, legacy: Directory, moves: seq<Move>, k: nat,
                          after: seq<Entry>)
    requires IsPlanned(current, legacy, moves) && k <= |moves|
    requires Lists(currentEntries, current) && AllAreReadable(currentEntries)
    requires Lists(after, Written(current, moves[..k]))
    ensures AllAreReadable(after)
  {
    WritingAdds(current, legacy, moves, k);
    var dir := Written(current, moves[..k]);
    hide Written, Usage, Migrated, WrittenBytes;
    forall e | e in after
      ensures e.file.content.Some? && |e.file.content.value| <= MAX_DRAFT_BYTES
    {
      if e.name in current {
        assert Entry(e.name, current[e.name]) in currentEntries;
      } else {
        var i :| 0 <= i < k && moves[i].destination == Some(e.name);
        assert moves[i] in moves;
      }
    }
  }

  lemma ProjectionAfter(current: Directory, legacy: Directory, moves: seq<Move>, written: nat, removed: nat,
                        parses: string -> bool)
    requires IsPlanned(current, legacy, moves) && MovesAreAll(moves, legacy, parses)
    requires removed <= written <= |moves| && written <= removed + 1
    ensures var (dir, rest) := (Written(current, moves[..written]), Removed(legacy, moves[..removed]));
      var (twice, before) := (Twice(dir, rest, parses), Twice(current, legacy, parses));
      var repeated := IsRepeated(moves, written, removed);
      && |dir| + |rest| - |twice| == |current| + |legacy| - |before| + (if repeated then 1 else 0)
      && Usage(dir, false) + Usage(rest, false) - Usage(twice, false)
           == Usage(current, false) + Usage(legacy, false) - Usage(before, false)
              + (if repeated then |moves[removed].bytes| else 0)
      && |rest| <= |legacy| && Usage(rest, false) <= Usage(legacy, false)
  {
    hide *;
    WritingAdds(current, legacy, moves, written);
    RemovingTakes(current, legacy, moves, removed);
    RemovingKeepsTwice(current, legacy, moves, removed, parses);
    TwiceAfter(current, legacy, moves, written, removed, parses);
    if removed < written {
      CountsUnfold(moves, written);
    }
    RepeatedIsNotInPlace(moves, written, removed);
  }

  lemma RepeatedIsNotInPlace(moves: seq<Move>, written: nat, removed: nat)
    requires removed <= written <= |moves|
    ensures IsRepeated(moves, written, removed) <==>
      removed < written && moves[removed].destination.Some? && !IsInPlace(moves, written, removed)
    ensures IsInPlace(moves, written, removed) ==> removed < written && moves[removed].destination.Some?
  {
  }

  /** A migration that stopped anywhere in its commit loop and starts again: the
      projected store is what it was if and only if no draft was written under a
      drawn name without being removed, and then the plan is admitted again. Such a
      draft is counted once more, and the plan is admitted exactly if that fits. */
  lemma InterruptedMigrationResumes(currentEntries: seq<Entry>, current: Directory, entries: seq<Entry>,
                                    legacy: Directory, parses: string -> bool, drawn: seq<Name>,
                                    written: nat, removed: nat, after: seq<Entry>, legacyAfter: seq<Entry>,
                                    redrawn: seq<Name>)
    requires Lists(currentEntries, current) && Lists(entries, legacy)
    requires |entries| <= |drawn| && AreNew(drawn, current, legacy)
    requires Plan(currentEntries, entries, parses, drawn).Done?
    requires var moves := Plan(currentEntries, entries, parses, drawn).value;
      && removed <= written <= |moves| && written <= removed + 1
      && Lists(after, Written(current, moves[..written])) && Lists(legacyAfter, Removed(legacy, moves[..removed]))
    requires |legacyAfter| <= |redrawn|
    ensures var moves := Plan(currentEntries, entries, parses, drawn).value;
      var (before, now) := (Projected(currentEntries, entries, parses), Projected(after, legacyAfter, parses));
      var repeated := IsRepeated(moves, written, removed);
      && now.0 == before.0 + (if repeated then 1 else 0)
      && now.1 == before.1 + (if repeated then |moves[removed].bytes| else 0)
      && (Plan(after, legacyAfter, parses, redrawn).Done? <==>
            !repeated || (now.0 <= MAX_DRAFTS && now.1 <= MAX_TOTAL_BYTES))
  {
    var moves := Plan(currentEntries, entries, parses, drawn).value;
    hide *;
    PlanIsPlanned(currentEntries, current, entries, legacy, parses, drawn);
    PlanIsForAll(currentEntries, entries, legacy, parses, drawn);
    ProjectionAfter(current, legacy, moves, written, removed, parses);
    ProjectedIsOfDirectories(currentEntries, current, entries, legacy, parses);
    var dir, rest := Written(current, moves[..written]), Removed(legacy, moves[..removed]);
    ProjectedIsOfDirectories(after, dir, legacyAfter, rest, parses);
    PlanIsAdmitted(currentEntries, current, entries, legacy, parses, drawn);
    WrittenIsReadable(currentEntries, current, legacy, moves, written, after);
    PlanIsAdmitted(after, dir, legacyAfter, rest, parses, redrawn);
  }

  lemma PlanIsForAll(currentEntries: seq<Entry>, entries: seq<Entry>, legacy: Directory, parses: string -> bool,
                     drawn: seq<Name>)
    requires Lists(entries, legacy) && |entries| <= |drawn| && Plan(currentEntries, entries, parses, drawn).Done?
    ensures MovesAreAll(Plan(currentEntries, entries, parses, drawn).value, legacy, parses)
  {
    PlanMovesAll(currentEntries, entries, legacy, parses, drawn);
    hide Plan, Lists, IsMovable;
  }

  lemma PlanIsAdmitted(currentEntries: seq<Entry>, current: Directory, entries: seq<Entry>, legacy: Directory,
                       parses: string -> bool, drawn: seq<Name>)
    requires Lists(currentEntries, current) && Lists(entries, legacy) && |entries| <= |drawn|
    ensures var projected := Projected(currentEntries, entries, parses);
      Plan(currentEntries, entries, parses, drawn).Done? <==>
        && AllAreReadable(currentEntries) && |legacy| <= MAX_DRAFTS && Usage(legacy, false) <= MAX_TOTAL_BYTES
        && projected.0 <= MAX_DRAFTS && projected.1 <= MAX_TOTAL_BYTES
  {
    hide *;
    NamesDiffer(currentEntries, current);
    ListingIsWhole(currentEntries, current, false);
    ListingIsWhole(entries, legacy, false);
    AdmissionIsExact(currentEntries, entries, parses, drawn);
    ProjectedIs(currentEntries, entries, parses);
  }

  lemma NamesDiffer(entries: seq<Entry>, dir: Directory)
    requires Lists(entries, dir)
    ensures forall i, j | 0 <= i < j < |entries| :: entries[i].name != entries[j].name
  {
  }

  lemma ProjectedIs(current: seq<Entry>, legacy: seq<Entry>, parses: string -> bool)
    ensures var (projected, added) := (Projected(current, legacy, parses), Added(legacy, current, parses));
      projected.0 == |current| + added.0 && projected.1 == Total(current, false) + added.1
    ensures Added(legacy, current, parses).0 >= 0 && Added(legacy, current, parses).1 >= 0 && Total(current, false) >= 0
  {
    hide Added, Total;
  }
}
