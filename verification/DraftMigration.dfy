// The migration of legacy named drafts (crates/notm-ui/src/draft_io.rs): every
// source is read and every limit checked before the first file is replaced, then
// each draft is written to the current directory and removed from the legacy one.
module DraftMigration {
  import opened MailText
  import opened DraftStore

  /** The draft at one place of the legacy listing, and where it goes: nowhere if
      the current directory has the same draft under the same name. */
  datatype Move = Move(at: nat, source: Name, destination: Option<Name>, bytes: string)

  /** A rejection of the whole migration, which the load may recover from or not. */
  datatype Outcome<T> = Done(value: T) | Stopped(recoverable: bool)

  datatype Reading = Whole(bytes: string, total: nat) | Rejected(total: nat) | OverBudget

  datatype Tally = Tally(total: nat, preservedBytes: nat, preservedCount: nat, migratedBytes: nat, moves: seq<Move>)

  // ---- Planning

  function ReadForMigration(file: File, total: nat): Reading {
    if ReadDraft(file).None? then Rejected(total)
    else if total + |ReadDraft(file).value| > MAX_TOTAL_BYTES then OverBudget
    else if |ReadDraft(file).value| > MAX_DRAFT_BYTES then Rejected(total + |ReadDraft(file).value|)
    else Whole(ReadDraft(file).value, total + |ReadDraft(file).value|)
  }

  function ReadCurrent(entries: seq<Entry>): Outcome<nat> {
    if entries == [] then Done(0)
    else
      var front := ReadCurrent(entries[..|entries| - 1]);
      if front.Stopped? then front
      else
        match ReadForMigration(entries[|entries| - 1].file, front.value)
        case Whole(_, total) => Done(total)
        case Rejected(_) => Stopped(true)
        case OverBudget => Stopped(false)
  }

  function ByName(entries: seq<Entry>): map<Name, string> {
    if entries == [] then map[]
    else
      var front, last := ByName(entries[..|entries| - 1]), entries[|entries| - 1];
      if ReadDraft(last.file).Some? then front[last.name := ReadDraft(last.file).value] else front
  }

  function Destination(byName: map<Name, string>, name: Name, bytes: string, drawn: Name): Option<Name> {
    if name in byName && byName[name] == bytes then None
    else if name in byName then Some(drawn)
    else Some(name)
  }

  function Tallied(byName: map<Name, string>, entries: seq<Entry>, parses: string -> bool,
                   drawn: seq<Name>): Outcome<Tally>
    requires |entries| <= |drawn|
  {
    if entries == [] then Done(Tally(0, 0, 0, 0, []))
    else
      var k := |entries| - 1;
      var front := Tallied(byName, entries[..k], parses, drawn);
      if front.Stopped? then front else TalliedNext(byName, front.value, k, entries[k], parses, drawn[k])
  }

  function TalliedNext(byName: map<Name, string>, t: Tally, k: nat, e: Entry, parses: string -> bool,
                       drawn: Name): Outcome<Tally>
  {
    match ReadForMigration(e.file, t.total)
    case OverBudget => Stopped(false)
    case Rejected(total) =>
      Done(t.(total := total,
              preservedBytes := t.preservedBytes + (total - t.total), preservedCount := t.preservedCount + 1))
    case Whole(bytes, total) =>
      if !parses(bytes) then
        Done(t.(total := total, preservedBytes := t.preservedBytes + |bytes|, preservedCount := t.preservedCount + 1))
      else
        var destination := Destination(byName, e.name, bytes, drawn);
        Done(t.(total := total,
                migratedBytes := t.migratedBytes + (if destination.Some? then |bytes| else 0),
                moves := t.moves + [Move(k, e.name, destination, bytes)]))
  }

  function Migrated(moves: seq<Move>): nat {
    if moves == [] then 0
    else Migrated(moves[..|moves| - 1]) + if moves[|moves| - 1].destination.Some? then 1 else 0
  }

  /** The preflight: what would be moved, if the combined store stays in its limits. */
  function Plan(current: seq<Entry>, legacy: seq<Entry>, parses: string -> bool, drawn: seq<Name>): Outcome<seq<Move>>
    requires |legacy| <= |drawn|
  {
    if |current| > MAX_DRAFTS then Stopped(false)
    else if ReadCurrent(current).Stopped? then Stopped(ReadCurrent(current).recoverable)
    else if |legacy| > MAX_DRAFTS then Stopped(false)
    else
      var tally := Tallied(ByName(current), legacy, parses, drawn);
      if tally.Stopped? then Stopped(tally.recoverable)
      else
        var t := tally.value;
        if |current| + Migrated(t.moves) + t.preservedCount > MAX_DRAFTS then Stopped(false)
        else if ReadCurrent(current).value + t.migratedBytes + t.preservedBytes > MAX_TOTAL_BYTES then Stopped(false)
        else Done(t.moves)
  }

  method ReadBoundedForMigration(file: File, total: nat) returns (reading: Reading)
    ensures reading == ReadForMigration(file, total)
  {
    var bytes := ReadDraft(file);
    if bytes.None? {
      return Rejected(total);
    }
    var charged := ChargeNamedDraftBytes(total, |bytes.value|);
    if charged.None? {
      return OverBudget;
    }
    if |bytes.value| > MAX_DRAFT_BYTES {
      return Rejected(charged.value);
    }
    reading := Whole(bytes.value, charged.value);
  }

  lemma PlanUnfolds(byName: map<Name, string>, entries: seq<Entry>, k: nat, parses: string -> bool, drawn: seq<Name>)
    requires k < |entries| <= |drawn|
    ensures Tallied(byName, entries[..k + 1], parses, drawn) ==
      var front := Tallied(byName, entries[..k], parses, drawn);
      if front.Stopped? then front else TalliedNext(byName, front.value, k, entries[k], parses, drawn[k])
  {
    assert entries[..k + 1][..k] == entries[..k];
    hide TalliedNext;
  }

  lemma CurrentUnfolds(entries: seq<Entry>, k: nat)
    requires k < |entries|
    ensures ReadCurrent(entries[..k]).Stopped? ==> ReadCurrent(entries[..k + 1]) == ReadCurrent(entries[..k])
    ensures ReadCurrent(entries[..k]).Done? ==>
      var reading := ReadForMigration(entries[k].file, ReadCurrent(entries[..k]).value);
      ReadCurrent(entries[..k + 1]) == if reading.Whole? then Done(reading.total) else Stopped(reading.Rejected?)
    ensures ReadDraft(entries[k].file).Some? ==>
      ByName(entries[..k + 1]) == ByName(entries[..k])[entries[k].name := ReadDraft(entries[k].file).value]
  {
    assert entries[..k + 1][..k] == entries[..k];
    hide ReadForMigration;
  }

  lemma {:induction false} StopsAreFinal(byName: map<Name, string>, entries: seq<Entry>, k: nat, parses: string -> bool,
                                         drawn: seq<Name>)
    requires k <= |entries| <= |drawn|
    ensures Tallied(byName, entries[..k], parses, drawn).Stopped? ==>
      Tallied(byName, entries, parses, drawn) == Tallied(byName, entries[..k], parses, drawn)
    ensures ReadCurrent(entries[..k]).Stopped? ==> ReadCurrent(entries) == ReadCurrent(entries[..k])
    decreases |entries| - k
  {
    if k == |entries| {
      assert entries[..k] == entries;
    } else {
      PlanUnfolds(byName, entries, k, parses, drawn);
      CurrentUnfolds(entries, k);
      StopsAreFinal(byName, entries, k + 1, parses, drawn);
      hide Tallied, ReadCurrent;
    }
  }

  method ReadCurrentDrafts(current: seq<Entry>) returns (total: Outcome<nat>, byName: map<Name, string>)
    ensures total == ReadCurrent(current)
    ensures total.Done? ==> byName == ByName(current)
  {
    hide ReadForMigration, ReadCurrent, ByName;
    var currentTotal: nat := 0;
    byName := map[];
    PlanBegins(_ => true, []);
    assert current[..0] == [];
    for i := 0 to |current|
      invariant ReadCurrent(current[..i]) == Done(currentTotal) && byName == ByName(current[..i])
    {
      CurrentUnfolds(current, i);
      WholeIsRead(current[i].file, currentTotal);
      CurrentStops(current, i + 1);
      var reading := ReadBoundedForMigration(current[i].file, currentTotal);
      match reading {
        case Whole(bytes, charged) =>
          currentTotal := charged;
          byName := byName[current[i].name := bytes];
        case Rejected(_) => return Stopped(true), byName;
        case OverBudget => return Stopped(false), byName;
      }
    }
    assert current[..|current|] == current;
    total := Done(currentTotal);
  }

  method TallyLegacyDrafts(byName: map<Name, string>, legacy: seq<Entry>, parses: string -> bool, drawn: seq<Name>)
    returns (tally: Outcome<Tally>)
    requires |legacy| <= |drawn|
    ensures tally == Tallied(byName, legacy, parses, drawn)
  {
    hide ReadForMigration, Tallied;
    var total: nat, migratedBytes: nat, preservedBytes: nat, preservedCount: nat := 0, 0, 0, 0;
    var moves: seq<Move> := [];
    PlanBegins(parses, drawn);
    assert legacy[..0] == [];
    for k := 0 to |legacy|
      invariant Tallied(byName, legacy[..k], parses, drawn)
             == Done(Tally(total, preservedBytes, preservedCount, migratedBytes, moves))
    {
      PlanUnfolds(byName, legacy, k, parses, drawn);
      StopsAreFinal(byName, legacy, k + 1, parses, drawn);
      var source, totalBefore := legacy[k], total;
      RejectedIsCharged(source.file, totalBefore);
      var reading := ReadBoundedForMigration(source.file, total);
      match reading {
        case OverBudget => return Stopped(false);
        case Rejected(charged) =>
          total := charged;
          preservedBytes := preservedBytes + (total - totalBefore);
          preservedCount := preservedCount + 1;
        case Whole(bytes, charged) =>
          total := charged;
          if !parses(bytes) {
            preservedBytes := preservedBytes + |bytes|;
            preservedCount := preservedCount + 1;
          } else {
            var destination := None;
            if source.name !in byName {
              destination := Some(source.name);
            } else if byName[source.name] != bytes {
              destination := Some(drawn[k]);
            }
            if destination.Some? {
              migratedBytes := migratedBytes + |bytes|;
            }
            moves := moves + [Move(k, source.name, destination, bytes)];
          }
      }
    }
    assert legacy[..|legacy|] == legacy;
    tally := Done(Tally(total, preservedBytes, preservedCount, migratedBytes, moves));
  }

  method PlanMigration(current: seq<Entry>, legacy: seq<Entry>, parses: string -> bool, drawn: seq<Name>)
    returns (plan: Outcome<seq<Move>>)
    requires |legacy| <= |drawn|
    ensures plan == Plan(current, legacy, parses, drawn)
  {
    hide ReadCurrent, ByName, Tallied, Migrated;
    if |current| > MAX_DRAFTS {
      return Stopped(false);
    }
    var currentTotal, byName := ReadCurrentDrafts(current);
    if currentTotal.Stopped? {
      return Stopped(currentTotal.recoverable);
    }
    if |legacy| > MAX_DRAFTS {
      return Stopped(false);
    }
    var tally := TallyLegacyDrafts(byName, legacy, parses, drawn);
    if tally.Stopped? {
      return Stopped(tally.recoverable);
    }
    var migrated := Migrated(tally.value.moves);
    if |current| + migrated + tally.value.preservedCount > MAX_DRAFTS {
      return Stopped(false);
    }
    if currentTotal.value + tally.value.migratedBytes + tally.value.preservedBytes > MAX_TOTAL_BYTES {
      return Stopped(false);
    }
    plan := Done(tally.value.moves);
  }

  lemma PlanBegins(parses: string -> bool, drawn: seq<Name>)
    ensures ReadCurrent([]) == Done(0) && ByName([]) == map[]
    ensures forall byName :: Tallied(byName, [], parses, drawn) == Done(Tally(0, 0, 0, 0, []))
  {
  }

  lemma CurrentStops(entries: seq<Entry>, k: nat)
    requires k <= |entries|
    ensures ReadCurrent(entries[..k]).Stopped? ==> ReadCurrent(entries) == ReadCurrent(entries[..k])
  {
    StopsAreFinal(map[], entries, k, _ => true, seq(|entries|, _ => ""));
  }

  lemma WholeIsRead(file: File, total: nat)
    ensures ReadForMigration(file, total).Whole? ==> ReadDraft(file) == Some(ReadForMigration(file, total).bytes)
  {
  }

  lemma RejectedIsCharged(file: File, total: nat)
    ensures ReadForMigration(file, total).Rejected? ==> ReadForMigration(file, total).total >= total
  {
  }

  // ---- What a plan says

  predicate IsMovable(file: File, parses: string -> bool) {
    file.content.Some? && |file.content.value| <= MAX_DRAFT_BYTES && parses(file.content.value)
  }

  function MovedBytes(moves: seq<Move>): nat {
    if moves == [] then 0 else MovedBytes(moves[..|moves| - 1]) + |moves[|moves| - 1].bytes|
  }

  function WrittenBytes(moves: seq<Move>): nat {
    if moves == [] then 0
    else
      WrittenBytes(moves[..|moves| - 1])
      + if moves[|moves| - 1].destination.Some? then |moves[|moves| - 1].bytes| else 0
  }

  predicate IsMoveOf(m: Move, byName: map<Name, string>, entries: seq<Entry>, parses: string -> bool, drawn: seq<Name>)
    requires |entries| <= |drawn|
  {
    && m.at < |entries| && entries[m.at].name == m.source
    && entries[m.at].file.content == Some(m.bytes) && IsMovable(entries[m.at].file, parses)
    && m.destination == Destination(byName, m.source, m.bytes, drawn[m.at])
  }

  predicate HasMove(moves: seq<Move>, at: nat) {
    exists m | m in moves :: m.at == at
  }

  /** The moves of a listing: one for each movable entry, in order. */
  ghost predicate AreMovesOf(moves: seq<Move>, byName: map<Name, string>, entries: seq<Entry>, parses: string -> bool,
                             drawn: seq<Name>)
    requires |entries| <= |drawn|
  {
    && (forall m | m in moves :: IsMoveOf(m, byName, entries, parses, drawn))
    && (forall i, j | 0 <= i < j < |moves| :: moves[i].at < moves[j].at)
    && (forall at: nat | at < |entries| :: IsMovable(entries[at].file, parses) ==> HasMove(moves, at))
  }

  predicate Balances(t: Tally, entries: seq<Entry>) {
    && t.total == Total(entries, false) == t.preservedBytes + MovedBytes(t.moves)
    && t.preservedCount + |t.moves| == |entries|
    && t.migratedBytes == WrittenBytes(t.moves)
  }

  lemma ReadingIsCharged(file: File, total: nat, parses: string -> bool)
    ensures var reading := ReadForMigration(file, total);
      && (!reading.OverBudget? ==> reading.total == total + Charge(file, false))
      && (reading.Whole? ==>
            file.content == Some(reading.bytes) && |reading.bytes| == Charge(file, false) <= MAX_DRAFT_BYTES)
      && (reading.Rejected? ==> !IsMovable(file, parses))
  {
  }

  lemma MovesStep(moves: seq<Move>, byName: map<Name, string>, entries: seq<Entry>, k: nat, parses: string -> bool,
                  drawn: seq<Name>, more: seq<Move>)
    requires k < |entries| <= |drawn| && AreMovesOf(moves, byName, entries[..k], parses, drawn) && |more| <= 1
    requires more == [] ==> !IsMovable(entries[k].file, parses)
    requires more != [] ==> more[0].at == k && IsMoveOf(more[0], byName, entries, parses, drawn)
    ensures AreMovesOf(moves + more, byName, entries[..k + 1], parses, drawn)
  {
    hide Destination, IsMovable;
    forall m | m in moves + more
      ensures IsMoveOf(m, byName, entries[..k + 1], parses, drawn)
    {
      if m in moves {
        assert IsMoveOf(m, byName, entries[..k], parses, drawn);
        assert entries[..k][m.at] == entries[m.at] == entries[..k + 1][m.at];
      }
    }
    forall i, j | 0 <= i < j < |moves + more|
      ensures (moves + more)[i].at < (moves + more)[j].at
    {
      assert moves[i] in moves && IsMoveOf(moves[i], byName, entries[..k], parses, drawn);
    }
    forall at: nat | at < k + 1 && IsMovable(entries[at].file, parses)
      ensures HasMove(moves + more, at)
    {
      if at < k {
        assert entries[..k][at] == entries[at];
        var m :| m in moves && m.at == at;
        assert m in moves + more;
      } else {
        assert more[0] in moves + more;
      }
    }
  }

  /** One entry read: either a move, or charged as preserved. */
  lemma TallyNextIs(byName: map<Name, string>, t: Tally, k: nat, e: Entry, parses: string -> bool, drawn: Name)
    returns (more: seq<Move>)
    requires TalliedNext(byName, t, k, e, parses, drawn).Done?
    ensures var u := TalliedNext(byName, t, k, e, parses, drawn).value;
      && u.moves == t.moves + more && |more| <= 1 && u.total == t.total + Charge(e.file, false)
      && (more == [] ==>
            && !IsMovable(e.file, parses) && u.migratedBytes == t.migratedBytes
            && u.preservedBytes == t.preservedBytes + Charge(e.file, false) && u.preservedCount == t.preservedCount + 1)
      && (more != [] ==>
            && more[0].at == k && more[0].source == e.name && IsMovable(e.file, parses)
            && e.file.content == Some(more[0].bytes)
            && more[0].destination == Destination(byName, e.name, more[0].bytes, drawn)
            && |more[0].bytes| == Charge(e.file, false)
            && u.migratedBytes == t.migratedBytes + (if more[0].destination.Some? then |more[0].bytes| else 0)
            && u.preservedBytes == t.preservedBytes && u.preservedCount == t.preservedCount)
  {
    ReadingIsCharged(e.file, t.total, parses);
    hide ReadForMigration, Charge, Destination;
    var reading := ReadForMigration(e.file, t.total);
    more := [];
    if reading.Whole? && parses(reading.bytes) {
      more := [Move(k, e.name, Destination(byName, e.name, reading.bytes, drawn), reading.bytes)];
    }
  }

  lemma TallyStep(t: Tally, byName: map<Name, string>, entries: seq<Entry>, k: nat, parses: string -> bool,
                  drawn: seq<Name>)
    requires k < |entries| <= |drawn| && AreMovesOf(t.moves, byName, entries[..k], parses, drawn)
    requires Balances(t, entries[..k])
    requires TalliedNext(byName, t, k, entries[k], parses, drawn[k]).Done?
    ensures var u := TalliedNext(byName, t, k, entries[k], parses, drawn[k]).value;
      AreMovesOf(u.moves, byName, entries[..k + 1], parses, drawn) && Balances(u, entries[..k + 1])
  {
    hide *;
    var u := TalliedNext(byName, t, k, entries[k], parses, drawn[k]).value;
    var more := TallyNextIs(byName, t, k, entries[k], parses, drawn[k]);
    SavingUnfolds(entries, k, None);
    BytesStep(t.moves, more);
    if more != [] {
      MoveIsOf(byName, entries, k, parses, drawn, more);
    }
    MovesStep(t.moves, byName, entries, k, parses, drawn, more);
    BalanceStep(t, u, entries[..k], entries[..k + 1], Charge(entries[k].file, false), more);
  }

  lemma MoveIsOf(byName: map<Name, string>, entries: seq<Entry>, k: nat, parses: string -> bool, drawn: seq<Name>,
                 more: seq<Move>)
    requires k < |entries| <= |drawn| && |more| == 1
    requires more[0].at == k && more[0].source == entries[k].name && IsMovable(entries[k].file, parses)
    requires entries[k].file.content == Some(more[0].bytes)
    requires more[0].destination == Destination(byName, entries[k].name, more[0].bytes, drawn[k])
    ensures IsMoveOf(more[0], byName, entries, parses, drawn)
  {
    hide IsMovable, Destination;
  }

  lemma BalanceStep(t: Tally, u: Tally, front: seq<Entry>, entries: seq<Entry>, charge: nat, more: seq<Move>)
    requires Balances(t, front) && |entries| == |front| + 1 && Total(entries, false) == Total(front, false) + charge
    requires u.moves == t.moves + more && |more| <= 1 && u.total == t.total + charge
    requires MovedBytes(u.moves) == MovedBytes(t.moves) + if more != [] then |more[0].bytes| else 0
    requires WrittenBytes(u.moves) ==
      WrittenBytes(t.moves) + if more != [] && more[0].destination.Some? then |more[0].bytes| else 0
    requires more == [] ==>
      && u.migratedBytes == t.migratedBytes
      && u.preservedBytes == t.preservedBytes + charge && u.preservedCount == t.preservedCount + 1
    requires more != [] ==>
      && |more[0].bytes| == charge
      && u.migratedBytes == t.migratedBytes + (if more[0].destination.Some? then |more[0].bytes| else 0)
      && u.preservedBytes == t.preservedBytes && u.preservedCount == t.preservedCount
    ensures Balances(u, entries)
  {
    hide Total, MovedBytes, WrittenBytes;
  }

  lemma BytesStep(moves: seq<Move>, more: seq<Move>)
    requires |more| <= 1
    ensures MovedBytes(moves + more) == MovedBytes(moves) + if more != [] then |more[0].bytes| else 0
    ensures WrittenBytes(moves + more) ==
      WrittenBytes(moves) + if more != [] && more[0].destination.Some? then |more[0].bytes| else 0
  {
    if more == [] {
      assert moves + more == moves;
    } else {
      assert (moves + more)[..|moves|] == moves;
    }
  }

  lemma {:induction false} TallyIsSound(byName: map<Name, string>, entries: seq<Entry>, parses: string -> bool,
                                        drawn: seq<Name>)
    requires |entries| <= |drawn| && Tallied(byName, entries, parses, drawn).Done?
    ensures var t := Tallied(byName, entries, parses, drawn).value;
      AreMovesOf(t.moves, byName, entries, parses, drawn) && Balances(t, entries)
  {
    if entries != [] {
      var k := |entries| - 1;
      TallyIsSound(byName, entries[..k], parses, drawn);
      hide AreMovesOf, Balances, TalliedNext;
      TallyStep(Tallied(byName, entries[..k], parses, drawn).value, byName, entries, k, parses, drawn);
      assert entries[..k + 1] == entries;
    }
  }

  lemma CurrentEnds(entries: seq<Entry>)
    requires entries != [] && ReadCurrent(entries).Done?
    ensures var (front, last) := (entries[..|entries| - 1], entries[|entries| - 1]);
      && ReadCurrent(front).Done? && last.file.content.Some?
      && ReadCurrent(entries).value == ReadCurrent(front).value + Charge(last.file, false)
      && Total(entries, false) == Total(front, false) + Charge(last.file, false)
      && ByName(entries) == ByName(front)[last.name := last.file.content.value]
  {
    hide *;
    var k := |entries| - 1;
    assert entries[..k + 1] == entries;
    CurrentUnfolds(entries, k);
    SavingUnfolds(entries, k, None);
    ReadingIsCharged(entries[k].file, ReadCurrent(entries[..k]).value, _ => true);
    WholeIsRead(entries[k].file, ReadCurrent(entries[..k]).value);
  }

  lemma NothingIsWhole()
    ensures ReadCurrent([]) == Done(0) && Total([], false) == 0 && ByName([]) == map[]
  {
  }

  lemma {:induction false} CurrentIsWhole(entries: seq<Entry>)
    requires ReadCurrent(entries).Done?
    requires forall i, j | 0 <= i < j < |entries| :: entries[i].name != entries[j].name
    ensures ReadCurrent(entries).value == Total(entries, false)
    ensures forall e | e in entries :: e.name in ByName(entries) && e.file.content == Some(ByName(entries)[e.name])
    ensures forall name | name in ByName(entries) :: IsListed(entries, name)
  {
    hide *;
    if entries == [] {
      NothingIsWhole();
    } else {
      var front, last := entries[..|entries| - 1], entries[|entries| - 1];
      CurrentEnds(entries);
      CurrentIsWhole(front);
      ListedLast(front, last);
      assert entries == front + [last];
      forall e | e in entries
        ensures e.name in ByName(entries) && e.file.content == Some(ByName(entries)[e.name])
      {
        if e in front {
          var i :| 0 <= i < |front| && front[i] == e;
          assert entries[i].name != entries[|entries| - 1].name;
        }
      }
    }
  }

  lemma ListedLast(front: seq<Entry>, last: Entry)
    ensures forall name :: IsListed(front + [last], name) <==> IsListed(front, name) || name == last.name
  {
    assert last in front + [last];
  }

  // ---- Carrying a plan out

  function Written(current: Directory, moves: seq<Move>): Directory {
    if moves == [] then current
    else
      var dir, m := Written(current, moves[..|moves| - 1]), moves[|moves| - 1];
      if m.destination.Some? then dir[m.destination.value := File(true, Some(m.bytes))] else dir
  }

  function Removed(legacy: Directory, moves: seq<Move>): Directory {
    if moves == [] then legacy else Removed(legacy, moves[..|moves| - 1]) - {moves[|moves| - 1].source}
  }

  /** A draft keeps its name unless the current directory has another under it. */
  predicate IsNewHome(m: Move, home: Name, current: Directory, legacy: Directory) {
    && home !in current
    && (if m.source in current then current[m.source].content != Some(m.bytes) && home !in legacy else home == m.source)
  }

  /** What a plan promises of the directories it was made for. */
  ghost predicate IsPlanned(current: Directory, legacy: Directory, moves: seq<Move>) {
    && (forall m | m in moves ::
          m.source in legacy && legacy[m.source].content == Some(m.bytes) && |m.bytes| <= MAX_DRAFT_BYTES)
    && (forall m | m in moves ::
          if m.destination.Some? then IsNewHome(m, m.destination.value, current, legacy)
          else m.source in current && current[m.source].content == Some(m.bytes))
    && (forall i, j | 0 <= i < j < |moves| ::
          && moves[i].source != moves[j].source
          && (moves[i].destination.Some? ==> moves[i].destination != moves[j].destination))
  }

  predicate HasCopy(dir: Directory, content: Option<string>) {
    exists name | name in dir :: dir[name].content == content
  }

  /** Names drawn for conflicting drafts: new, each once. */
  ghost predicate AreNew(drawn: seq<Name>, current: Directory, legacy: Directory) {
    && (forall name | name in drawn :: name !in current && name !in legacy)
    && (forall i, j | 0 <= i < j < |drawn| :: drawn[i] != drawn[j])
  }

  ghost predicate AreContentsOf(byName: map<Name, string>, dir: Directory) {
    && (forall name :: name in byName <==> name in dir)
    && (forall name | name in dir :: dir[name].content == Some(byName[name]))
  }

  lemma NamesAreCurrent(entries: seq<Entry>, current: Directory)
    requires Lists(entries, current) && ReadCurrent(entries).Done?
    ensures AreContentsOf(ByName(entries), current)
  {
    CurrentIsWhole(entries);
    hide ByName, ReadCurrent;
    forall name | name in current
      ensures name in ByName(entries) && current[name].content == Some(ByName(entries)[name])
    {
      assert Entry(name, current[name]) in entries;
    }
    forall name | name in ByName(entries)
      ensures name in current
    {
      var e :| e in entries && e.name == name;
    }
  }

  lemma MoveIsPlanned(m: Move, current: Directory, legacy: Directory, byName: map<Name, string>, entries: seq<Entry>,
                      parses: string -> bool, drawn: seq<Name>)
    requires AreContentsOf(byName, current) && Lists(entries, legacy) && |entries| <= |drawn|
    requires AreNew(drawn, current, legacy)
    requires IsMoveOf(m, byName, entries, parses, drawn)
    ensures m.source in legacy && legacy[m.source].content == Some(m.bytes) && |m.bytes| <= MAX_DRAFT_BYTES
    ensures if m.destination.Some? then IsNewHome(m, m.destination.value, current, legacy)
            else m.source in current && current[m.source].content == Some(m.bytes)
    ensures m.destination.Some? ==> m.destination.value == m.source || m.destination.value == drawn[m.at]
    ensures drawn[m.at] !in legacy
  {
    assert entries[m.at] in entries && drawn[m.at] in drawn;
  }

  lemma MovesDiffer(m: Move, n: Move, current: Directory, legacy: Directory, byName: map<Name, string>,
                    entries: seq<Entry>, parses: string -> bool, drawn: seq<Name>)
    requires AreContentsOf(byName, current) && Lists(entries, legacy) && |entries| <= |drawn|
    requires AreNew(drawn, current, legacy)
    requires IsMoveOf(m, byName, entries, parses, drawn) && IsMoveOf(n, byName, entries, parses, drawn) && m.at < n.at
    ensures m.source != n.source && (m.destination.Some? ==> m.destination != n.destination)
  {
    MoveIsPlanned(m, current, legacy, byName, entries, parses, drawn);
    MoveIsPlanned(n, current, legacy, byName, entries, parses, drawn);
    assert entries[m.at].name != entries[n.at].name && drawn[m.at] != drawn[n.at];
    hide AreContentsOf, Destination, IsMovable;
  }

  lemma MovesArePlanned(moves: seq<Move>, current: Directory, legacy: Directory, byName: map<Name, string>,
                        entries: seq<Entry>, parses: string -> bool, drawn: seq<Name>)
    requires AreContentsOf(byName, current) && Lists(entries, legacy) && |entries| <= |drawn|
    requires AreNew(drawn, current, legacy)
    requires AreMovesOf(moves, byName, entries, parses, drawn)
    ensures IsPlanned(current, legacy, moves)
  {
    hide AreContentsOf, Lists, AreNew, IsMoveOf, IsNewHome;
    forall m | m in moves
      ensures m.source in legacy && legacy[m.source].content == Some(m.bytes) && |m.bytes| <= MAX_DRAFT_BYTES
      ensures if m.destination.Some? then IsNewHome(m, m.destination.value, current, legacy)
              else m.source in current && current[m.source].content == Some(m.bytes)
    {
      MoveIsPlanned(m, current, legacy, byName, entries, parses, drawn);
    }
    forall i, j | 0 <= i < j < |moves|
      ensures moves[i].source != moves[j].source
      ensures moves[i].destination.Some? ==> moves[i].destination != moves[j].destination
    {
      MovesDiffer(moves[i], moves[j], current, legacy, byName, entries, parses, drawn);
    }
  }

  lemma PlanIsPlanned(currentEntries: seq<Entry>, current: Directory, entries: seq<Entry>, legacy: Directory,
                      parses: string -> bool, drawn: seq<Name>)
    requires Lists(currentEntries, current) && Lists(entries, legacy)
    requires |entries| <= |drawn| && AreNew(drawn, current, legacy)
    requires Plan(currentEntries, entries, parses, drawn).Done?
    ensures IsPlanned(current, legacy, Plan(currentEntries, entries, parses, drawn).value)
  {
    hide Lists, AreNew, ReadCurrent, Tallied, AreMovesOf, IsPlanned, AreContentsOf;
    var byName := ByName(currentEntries);
    NamesAreCurrent(currentEntries, current);
    TallyIsSound(byName, entries, parses, drawn);
    var moves := Tallied(byName, entries, parses, drawn).value.moves;
    MovesArePlanned(moves, current, legacy, byName, entries, parses, drawn);
  }

  /** The current directory after the first k moves: no draft touched, each moved
      one under a new name, and nothing else. */
  ghost predicate IsWritten(dir: Directory, current: Directory, moves: seq<Move>, k: nat)
    requires k <= |moves|
  {
    && (forall name | name in current :: name in dir && dir[name] == current[name])
    && (forall i | 0 <= i < k && moves[i].destination.Some? ::
          moves[i].destination.value in dir && dir[moves[i].destination.value] == File(true, Some(moves[i].bytes)))
    && (forall name | name in dir && name !in current :: exists i :: 0 <= i < k && moves[i].destination == Some(name))
  }

  lemma WriteStep(dir: Directory, current: Directory, moves: seq<Move>, k: nat)
    requires k < |moves| && IsWritten(dir, current, moves, k)
    requires moves[k].destination.Some? ==>
      moves[k].destination.value !in current && forall i | 0 <= i < k :: moves[i].destination != moves[k].destination
    ensures moves[k].destination.None? ==> IsWritten(dir, current, moves, k + 1)
    ensures moves[k].destination.Some? ==>
      && moves[k].destination.value !in dir
      && IsWritten(dir[moves[k].destination.value := File(true, Some(moves[k].bytes))], current, moves, k + 1)
  {
  }

  lemma DestinationIsNew(current: Directory, legacy: Directory, moves: seq<Move>, k: nat)
    requires k < |moves| && IsPlanned(current, legacy, moves)
    ensures |moves[k].bytes| <= MAX_DRAFT_BYTES
    ensures moves[k].destination.Some? ==>
      moves[k].destination.value !in current && forall i | 0 <= i < k :: moves[i].destination != moves[k].destination
  {
    assert moves[k] in moves;
  }

  /** Writing adds exactly the bytes and the count that were projected. */
  lemma {:induction false} WritingAdds(current: Directory, legacy: Directory, moves: seq<Move>, k: nat)
    requires IsPlanned(current, legacy, moves) && k <= |moves|
    ensures var dir := Written(current, moves[..k]);
      && IsWritten(dir, current, moves, k)
      && |dir| == |current| + Migrated(moves[..k])
      && Usage(dir, false) == Usage(current, false) + WrittenBytes(moves[..k])
  {
    hide IsWritten, IsPlanned, Usage, Charge;
    if k == 0 {
      NothingWritten(current, moves);
    } else {
      WritingAdds(current, legacy, moves, k - 1);
      DestinationIsNew(current, legacy, moves, k - 1);
      var before, m := Written(current, moves[..k - 1]), moves[k - 1];
      WriteStep(before, current, moves, k - 1);
      WrittenUnfolds(current, moves, k);
      hide Written, Migrated, WrittenBytes;
      if m.destination.Some? {
        WriteIsCharged(before, m.destination.value, m.bytes);
      }
    }
  }

  lemma NothingWritten(current: Directory, moves: seq<Move>)
    ensures Written(current, moves[..0]) == current && IsWritten(current, current, moves, 0)
    ensures Migrated(moves[..0]) == 0 && WrittenBytes(moves[..0]) == 0
  {
  }

  lemma WrittenUnfolds(current: Directory, moves: seq<Move>, k: nat)
    requires 0 < k <= |moves|
    ensures var (dir, m) := (Written(current, moves[..k - 1]), moves[k - 1]);
      && Written(current, moves[..k]) ==
           (if m.destination.Some? then dir[m.destination.value := File(true, Some(m.bytes))] else dir)
      && Migrated(moves[..k]) == Migrated(moves[..k - 1]) + (if m.destination.Some? then 1 else 0)
      && WrittenBytes(moves[..k]) == WrittenBytes(moves[..k - 1]) + (if m.destination.Some? then |m.bytes| else 0)
  {
    assert moves[..k][..k - 1] == moves[..k - 1];
  }

  lemma WriteIsCharged(dir: Directory, name: Name, bytes: string)
    requires name !in dir && |bytes| <= MAX_DRAFT_BYTES
    ensures var after := dir[name := File(true, Some(bytes))];
      |after| == |dir| + 1 && Usage(after, false) == Usage(dir, false) + |bytes|
  {
    var file := File(true, Some(bytes));
    UsageWith(dir, name, file, false);
    WholeFileCharge(file, bytes);
    assert dir[name := file].Keys == dir.Keys + {name};
    hide Usage, Charge;
  }

  /** The legacy directory after the first k moves: what is left is untouched. */
  ghost predicate IsRemoved(dir: Directory, legacy: Directory, moves: seq<Move>, k: nat)
    requires k <= |moves|
  {
    && (forall name | name in dir :: name in legacy && dir[name] == legacy[name])
    && (forall name | name in legacy :: name in dir <==> forall i | 0 <= i < k :: moves[i].source != name)
  }

  lemma RemoveStep(dir: Directory, current: Directory, legacy: Directory, moves: seq<Move>, k: nat)
    requires k < |moves| && IsPlanned(current, legacy, moves) && IsRemoved(dir, legacy, moves, k)
    ensures moves[k].source in dir && dir[moves[k].source].content == Some(moves[k].bytes)
    ensures |moves[k].bytes| <= MAX_DRAFT_BYTES
    ensures IsRemoved(dir - {moves[k].source}, legacy, moves, k + 1)
  {
    assert moves[k] in moves;
  }

  /** Removing takes exactly the moved drafts. */
  lemma {:induction false} RemovingTakes(current: Directory, legacy: Directory, moves: seq<Move>, k: nat)
    requires IsPlanned(current, legacy, moves) && k <= |moves|
    ensures var dir := Removed(legacy, moves[..k]);
      && IsRemoved(dir, legacy, moves, k)
      && |dir| + k == |legacy|
      && Usage(dir, false) + MovedBytes(moves[..k]) == Usage(legacy, false)
  {
    if k > 0 {
      hide IsRemoved, IsPlanned, Usage, Charge;
      assert moves[..k][..k - 1] == moves[..k - 1];
      RemovingTakes(current, legacy, moves, k - 1);
      var before, m := Removed(legacy, moves[..k - 1]), moves[k - 1];
      RemoveStep(before, current, legacy, moves, k - 1);
      RemovalIsCharged(before, m.source, m.bytes);
    }
  }

  lemma RemovalIsCharged(dir: Directory, name: Name, bytes: string)
    requires name in dir && dir[name].content == Some(bytes) && |bytes| <= MAX_DRAFT_BYTES
    ensures |dir - {name}| + 1 == |dir| && Usage(dir - {name}, false) + |bytes| == Usage(dir, false)
  {
    UsageWithout(dir, name, false);
    WholeFileCharge(dir[name], bytes);
    assert dir.Keys == (dir - {name}).Keys + {name};
    hide Usage, Charge;
  }

  // ---- Limits

  lemma PlanKeepsLimits(currentEntries: seq<Entry>, current: Directory, entries: seq<Entry>, legacy: Directory,
                        parses: string -> bool, drawn: seq<Name>)
    requires Lists(currentEntries, current) && Lists(entries, legacy) && |entries| <= |drawn|
    requires Plan(currentEntries, entries, parses, drawn).Done?
    ensures var moves := Plan(currentEntries, entries, parses, drawn).value;
      && |moves| <= |legacy| && |current| + Migrated(moves) + |legacy| - |moves| <= MAX_DRAFTS
      && Usage(current, false) + WrittenBytes(moves) + Usage(legacy, false) - MovedBytes(moves) <= MAX_TOTAL_BYTES
  {
    hide AreMovesOf, Lists, Usage, Total, ReadCurrent, ByName, Tallied, MovedBytes, WrittenBytes, Migrated;
    TallyIsSound(ByName(currentEntries), entries, parses, drawn);
    ListingIsWhole(entries, legacy, false);
    CurrentIsCharged(currentEntries, current);
  }

  lemma CurrentIsCharged(entries: seq<Entry>, current: Directory)
    requires Lists(entries, current) && ReadCurrent(entries).Done?
    ensures |entries| == |current| && ReadCurrent(entries).value == Usage(current, false)
  {
    ListingIsWhole(entries, current, false);
    CurrentIsWhole(entries);
  }

  /** An entry is moved if and only if it can be read whole and parses. */
  lemma PlanMovesAll(currentEntries: seq<Entry>, entries: seq<Entry>, legacy: Directory, parses: string -> bool,
                     drawn: seq<Name>)
    requires Lists(entries, legacy) && |entries| <= |drawn|
    requires Plan(currentEntries, entries, parses, drawn).Done?
    ensures var moves := Plan(currentEntries, entries, parses, drawn).value;
      forall name | name in legacy ::
        IsMovable(legacy[name], parses) <==> exists i :: 0 <= i < |moves| && moves[i].source == name
  {
    var byName := ByName(currentEntries);
    var moves := Plan(currentEntries, entries, parses, drawn).value;
    TallyIsSound(byName, entries, parses, drawn);
    hide Plan, Tallied, ByName, Balances, Destination, IsMovable;
    forall name | name in legacy
      ensures IsMovable(legacy[name], parses) <==> exists i :: 0 <= i < |moves| && moves[i].source == name
    {
      assert Entry(name, legacy[name]) in entries;
      var at :| 0 <= at < |entries| && entries[at] == Entry(name, legacy[name]);
      if IsMovable(legacy[name], parses) {
        assert HasMove(moves, at);
        var m :| m in moves && m.at == at;
        assert IsMoveOf(m, byName, entries, parses, drawn);
      }
      if i :| 0 <= i < |moves| && moves[i].source == name {
        assert moves[i] in moves && IsMoveOf(moves[i], byName, entries, parses, drawn);
        assert entries[moves[i].at] in entries;
      }
    }
  }

  /** A legacy draft of which the current directory has the same under its name. */
  predicate IsDuplicate(e: Entry, current: seq<Entry>, parses: string -> bool) {
    IsMovable(e.file, parses) && exists d | d in current :: d.name == e.name && d.file.content == e.file.content
  }

  /** The count and the bytes of the legacy entries that are not duplicates. */
  function Added(entries: seq<Entry>, current: seq<Entry>, parses: string -> bool): (nat, nat) {
    if entries == [] then (0, 0)
    else
      var front, last := Added(entries[..|entries| - 1], current, parses), entries[|entries| - 1];
      if IsDuplicate(last, current, parses) then front else (front.0 + 1, front.1 + Charge(last.file, false))
  }

  lemma DuplicatesGoNowhere(e: Entry, current: seq<Entry>, parses: string -> bool, bytes: string, drawn: Name)
    requires ReadCurrent(current).Done? && forall i, j | 0 <= i < j < |current| :: current[i].name != current[j].name
    requires IsMovable(e.file, parses) && e.file.content == Some(bytes)
    ensures Destination(ByName(current), e.name, bytes, drawn).None? <==> IsDuplicate(e, current, parses)
  {
    CurrentIsWhole(current);
    hide ByName, ReadCurrent, IsMovable;
    if e.name in ByName(current) {
      var d :| d in current && d.name == e.name;
    }
  }

  lemma MigratedStep(moves: seq<Move>, more: seq<Move>)
    requires |more| <= 1
    ensures Migrated(moves + more) == Migrated(moves) + if more != [] && more[0].destination.Some? then 1 else 0
  {
    if more == [] {
      assert moves + more == moves;
    } else {
      assert (moves + more)[..|moves|] == moves;
    }
  }

  lemma {:induction false} TallyIsExact(current: seq<Entry>, entries: seq<Entry>, parses: string -> bool,
                                        drawn: seq<Name>)
    requires |entries| <= |drawn|
    requires ReadCurrent(current).Done? && forall i, j | 0 <= i < j < |current| :: current[i].name != current[j].name
    ensures var tally := Tallied(ByName(current), entries, parses, drawn);
      && (tally.Done? <==> Total(entries, false) <= MAX_TOTAL_BYTES)
      && (tally.Stopped? ==> !tally.recoverable)
      && (tally.Done? ==>
            && tally.value.total == Total(entries, false)
            && (Migrated(tally.value.moves) + tally.value.preservedCount,
                tally.value.migratedBytes + tally.value.preservedBytes) == Added(entries, current, parses))
  {
    hide *;
    if entries == [] {
      NothingTallied(ByName(current), current, parses, drawn);
    } else {
      var k := |entries| - 1;
      assert entries[..k + 1] == entries;
      var byName := ByName(current);
      var front := Tallied(byName, entries[..k], parses, drawn);
      TallyIsExact(current, entries[..k], parses, drawn);
      PlanUnfolds(byName, entries, k, parses, drawn);
      SavingUnfolds(entries, k, None);
      AddedUnfolds(entries, current, parses);
      if front.Done? {
        TallyStops(byName, front.value, k, entries[k], parses, drawn[k]);
        if TalliedNext(byName, front.value, k, entries[k], parses, drawn[k]).Done? {
          var more := TallyNextIs(byName, front.value, k, entries[k], parses, drawn[k]);
          MigratedStep(front.value.moves, more);
          if more != [] {
            DuplicatesGoNowhere(entries[k], current, parses, more[0].bytes, drawn[k]);
          } else {
            DuplicatesAreMovable(entries[k], current, parses);
          }
        }
      }
    }
  }

  lemma NothingTallied(byName: map<Name, string>, current: seq<Entry>, parses: string -> bool, drawn: seq<Name>)
    ensures Tallied(byName, [], parses, drawn) == Done(Tally(0, 0, 0, 0, []))
    ensures Total([], false) == 0 <= MAX_TOTAL_BYTES && Migrated([]) == 0 && Added([], current, parses) == (0, 0)
  {
  }

  lemma AddedUnfolds(entries: seq<Entry>, current: seq<Entry>, parses: string -> bool)
    requires entries != []
    ensures var (front, last) := (Added(entries[..|entries| - 1], current, parses), entries[|entries| - 1]);
      Added(entries, current, parses) ==
        if IsDuplicate(last, current, parses) then front else (front.0 + 1, front.1 + Charge(last.file, false))
  {
    hide IsDuplicate, Charge;
  }

  lemma DuplicatesAreMovable(e: Entry, current: seq<Entry>, parses: string -> bool)
    ensures IsDuplicate(e, current, parses) ==> IsMovable(e.file, parses)
  {
  }

  lemma TallyStops(byName: map<Name, string>, t: Tally, k: nat, e: Entry, parses: string -> bool, drawn: Name)
    requires t.total <= MAX_TOTAL_BYTES
    ensures TalliedNext(byName, t, k, e, parses, drawn).Done? <==> t.total + Charge(e.file, false) <= MAX_TOTAL_BYTES
    ensures TalliedNext(byName, t, k, e, parses, drawn).Stopped? ==>
      !TalliedNext(byName, t, k, e, parses, drawn).recoverable
  {
  }

  lemma {:induction false} CurrentIsExact(entries: seq<Entry>)
    ensures ReadCurrent(entries).Done? <==> AllAreReadable(entries) && Total(entries, false) <= MAX_TOTAL_BYTES
    ensures ReadCurrent(entries).Done? ==> ReadCurrent(entries).value == Total(entries, false)
    ensures ReadCurrent(entries).Stopped? && ReadCurrent(entries).recoverable ==> !AllAreReadable(entries)
  {
    if entries != [] {
      var front, last := entries[..|entries| - 1], entries[|entries| - 1];
      CurrentIsExact(front);
      assert entries == front + [last];
    }
  }

  /** The preflight admits exactly the migrations after which the combined store
      keeps its limits; it recovers only from a current draft it cannot read. */
  lemma AdmissionIsExact(current: seq<Entry>, legacy: seq<Entry>, parses: string -> bool, drawn: seq<Name>)
    requires |legacy| <= |drawn|
    requires forall i, j | 0 <= i < j < |current| :: current[i].name != current[j].name
    ensures var (count, bytes) := Added(legacy, current, parses);
      Plan(current, legacy, parses, drawn).Done? <==>
        && AllAreReadable(current) && |current| <= MAX_DRAFTS && |legacy| <= MAX_DRAFTS
        && Total(current, false) <= MAX_TOTAL_BYTES && Total(legacy, false) <= MAX_TOTAL_BYTES
        && |current| + count <= MAX_DRAFTS && Total(current, false) + bytes <= MAX_TOTAL_BYTES
    ensures Plan(current, legacy, parses, drawn).Stopped? && Plan(current, legacy, parses, drawn).recoverable ==>
      !AllAreReadable(current)
  {
    CurrentIsExact(current);
    if ReadCurrent(current).Done? {
      TallyIsExact(current, legacy, parses, drawn);
    }
    hide ReadCurrent, Tallied, ByName, Added, Total, AllAreReadable;
  }

  // ---- What the migration promises

  /** However far it got, wherever it stopped: a legacy draft is still in its place
      or there is a copy in the current directory, and no current draft changed. */
  lemma NoDraftIsLost(current: Directory, legacy: Directory, moves: seq<Move>, written: nat, removed: nat)
    requires IsPlanned(current, legacy, moves) && removed <= written <= |moves|
    ensures var (dir, rest) := (Written(current, moves[..written]), Removed(legacy, moves[..removed]));
      && (forall name | name in current :: name in dir && dir[name] == current[name])
      && (forall name | name in legacy ::
            (name in rest && rest[name] == legacy[name]) || HasCopy(dir, legacy[name].content))
  {
    WritingAdds(current, legacy, moves, written);
    RemovingTakes(current, legacy, moves, removed);
    var dir, rest := Written(current, moves[..written]), Removed(legacy, moves[..removed]);
    hide Written, Removed;
    forall name | name in legacy && name !in rest
      ensures HasCopy(dir, legacy[name].content)
    {
      var i :| 0 <= i < removed && moves[i].source == name;
      assert moves[i] in moves;
      var home := if moves[i].destination.Some? then moves[i].destination.value else name;
      assert home in dir && dir[home].content == legacy[name].content;
    }
  }

  /** A planned migration that is carried out leaves exactly the drafts it could
      not move in the legacy directory, and no scan of the two can fail. */
  lemma MigratedDraftsScan(currentEntries: seq<Entry>, current: Directory, entries: seq<Entry>, legacy: Directory,
                           parses: string -> bool, drawn: seq<Name>, after: seq<Entry>, legacyAfter: seq<Entry>)
    requires Lists(currentEntries, current) && Lists(entries, legacy)
    requires |entries| <= |drawn| && AreNew(drawn, current, legacy)
    requires Plan(currentEntries, entries, parses, drawn).Done?
    requires var moves := Plan(currentEntries, entries, parses, drawn).value;
      Lists(after, Written(current, moves)) && Lists(legacyAfter, Removed(legacy, moves))
    ensures ScanFits(after + legacyAfter)
    ensures var rest := Removed(legacy, Plan(currentEntries, entries, parses, drawn).value);
      forall name | name in legacy :: name in rest <==> !IsMovable(legacy[name], parses)
  {
    hide Plan, Written, Removed, Usage, Total, Lists, IsPlanned, IsWritten, IsMovable, AreNew;
    var moves := Plan(currentEntries, entries, parses, drawn).value;
    assert moves[..|moves|] == moves;
    PlanIsPlanned(currentEntries, current, entries, legacy, parses, drawn);
    WritingAdds(current, legacy, moves, |moves|);
    RemovingTakes(current, legacy, moves, |moves|);
    var dir, rest := Written(current, moves), Removed(legacy, moves);
    PlanKeepsLimits(currentEntries, current, entries, legacy, parses, drawn);
    ListingIsWhole(after, dir, true);
    ListingIsWhole(legacyAfter, rest, true);
    ScanningChargesLess(dir);
    ScanningChargesLess(rest);
    TotalConcat(after, legacyAfter, true);
    PlanMovesAll(currentEntries, entries, legacy, parses, drawn);
  }

  class DraftDirectories {
    var current: Directory
    var legacy: Directory

    constructor (current: Directory, legacy: Directory)
      ensures this.current == current && this.legacy == legacy
    {
      this.current, this.legacy := current, legacy;
    }

    /** Carries a plan out until it is done or one of the writes or removals fails:
        as many as `working` succeed. */
    method Commit(moves: seq<Move>, working: nat) returns (written: nat, removed: nat)
      modifies this
      ensures removed <= written <= |moves| && written <= removed + 1
      ensures current == Written(old(current), moves[..written]) && legacy == Removed(old(legacy), moves[..removed])
      ensures working >= 2 * |moves| ==> removed == |moves|
    {
      var left: nat := working;
      written, removed := 0, 0;
      while removed < |moves|
        invariant removed == written <= |moves|
        invariant current == Written(old(current), moves[..written]) && legacy == Removed(old(legacy), moves[..removed])
        invariant left >= working - 2 * removed
      {
        var m := moves[removed];
        assert moves[..removed + 1][..removed] == moves[..removed];
        if m.destination.Some? {
          if left == 0 {
            return;
          }
          left := left - 1;
          current := current[m.destination.value := File(true, Some(m.bytes))];
        }
        written := written + 1;
        if left == 0 {
          return;
        }
        left := left - 1;
        legacy := legacy - {m.source};
        removed := removed + 1;
      }
    }

    /** Nothing is touched unless the whole plan stands; then no draft is lost, and
        if nothing fails every movable draft is in the current directory. */
    method Migrate(currentEntries: seq<Entry>, legacyEntries: seq<Entry>, parses: string -> bool, drawn: seq<Name>,
                   working: nat)
      returns (plan: Outcome<seq<Move>>, removed: nat)
      requires Lists(currentEntries, current) && Lists(legacyEntries, legacy)
      requires |legacyEntries| <= |drawn| && AreNew(drawn, current, legacy)
      modifies this
      ensures plan == Plan(currentEntries, legacyEntries, parses, drawn)
      ensures plan.Stopped? ==> current == old(current) && legacy == old(legacy)
      ensures forall name | name in old(current) :: name in current && current[name] == old(current)[name]
      ensures forall name | name in old(legacy) ::
        (name in legacy && legacy[name] == old(legacy)[name]) || HasCopy(current, old(legacy)[name].content)
      ensures plan.Done? && removed == |plan.value| ==>
        current == Written(old(current), plan.value) && legacy == Removed(old(legacy), plan.value)
      ensures plan.Done? && working >= 2 * |plan.value| ==> removed == |plan.value|
    {
      hide Lists, AreNew, Plan, Written, Removed, IsPlanned;
      plan := PlanMigration(currentEntries, legacyEntries, parses, drawn);
      removed := 0;
      if plan.Done? {
        var written;
        PlanIsPlanned(currentEntries, current, legacyEntries, legacy, parses, drawn);
        written, removed := Commit(plan.value, working);
        NoDraftIsLost(old(current), old(legacy), plan.value, written, removed);
        assert plan.value[..|plan.value|] == plan.value;
      }
    }
  }
}
