// The named-draft store (crates/notm-ui/src/draft_io.rs): a directory of JSON
// drafts and a legacy directory beside it share one count and one byte budget,
// enforced by the scan, by the preflight of a save and by the migration.
module DraftStore {
  import opened MailText

  const MAX_DRAFTS := 256
  const MAX_DRAFT_BYTES := 2 * 1024 * 1024
  const MAX_TOTAL_BYTES := 32 * 1024 * 1024

  type Name = string

  /** A JSON entry of a directory: whether its metadata say it is a regular file,
      and its contents unless opening or reading it fails. */
  datatype File = File(regular: bool, content: Option<string>)

  type Directory = map<Name, File>

  datatype Entry = Entry(name: Name, file: File)

  /** The directory read in some order. */
  ghost predicate Lists(entries: seq<Entry>, dir: Directory) {
    && (forall e | e in entries :: e.name in dir && dir[e.name] == e.file)
    && (forall i, j | 0 <= i < j < |entries| :: entries[i].name != entries[j].name)
    && (forall name | name in dir :: Entry(name, dir[name]) in entries)
  }

  // ---- Bytes charged

  /** What reading a file yields: nothing beyond one byte over the limit. */
  function ReadDraft(file: File): Option<string> {
    if file.content.None? then None
    else if |file.content.value| > MAX_DRAFT_BYTES then Some(file.content.value[..MAX_DRAFT_BYTES + 1])
    else file.content
  }

  /** The scan looks at the metadata first, the others do not. */
  function Charge(file: File, scanning: bool): nat {
    if ReadDraft(file).None? || (scanning && !file.regular) then 0 else |ReadDraft(file).value|
  }

  function Total(entries: seq<Entry>, scanning: bool): nat {
    if entries == [] then 0
    else Total(entries[..|entries| - 1], scanning) + Charge(entries[|entries| - 1].file, scanning)
  }

  ghost function Usage(dir: Directory, scanning: bool): nat
    decreases |dir|
  {
    if dir == map[] then 0
    else
      var name :| name in dir;
      Charge(dir[name], scanning) + Usage(dir - {name}, scanning)
  }

  lemma {:induction false} UsageWithout(dir: Directory, name: Name, scanning: bool)
    requires name in dir
    ensures Usage(dir, scanning) == Charge(dir[name], scanning) + Usage(dir - {name}, scanning)
    decreases |dir|
  {
    hide Charge;
    var first :| first in dir && Usage(dir, scanning) == Charge(dir[first], scanning) + Usage(dir - {first}, scanning);
    if first != name {
      UsageWithout(dir - {first}, name, scanning);
      UsageWithout(dir - {name}, first, scanning);
      assert dir - {first} - {name} == dir - {name} - {first};
    }
  }

  lemma UsageWith(dir: Directory, name: Name, file: File, scanning: bool)
    ensures name !in dir ==> Usage(dir[name := file], scanning) == Usage(dir, scanning) + Charge(file, scanning)
    ensures name in dir ==>
      Usage(dir[name := file], scanning) + Charge(dir[name], scanning) == Usage(dir, scanning) + Charge(file, scanning)
  {
    hide Charge;
    UsageWithout(dir[name := file], name, scanning);
    if name in dir {
      UsageWithout(dir, name, scanning);
      assert dir[name := file] - {name} == dir - {name};
    } else {
      assert dir[name := file] - {name} == dir;
    }
  }

  lemma {:induction false} ScanningChargesLess(dir: Directory)
    ensures Usage(dir, true) <= Usage(dir, false)
    decreases |dir|
  {
    if dir != map[] {
      var name :| name in dir;
      UsageWithout(dir, name, true);
      UsageWithout(dir, name, false);
      ScanningChargesLess(dir - {name});
    }
  }

  /** Without its last entry a listing lists the directory without that file. */
  lemma FrontLists(entries: seq<Entry>, dir: Directory)
    requires Lists(entries, dir) && entries != []
    ensures var (front, last) := (entries[..|entries| - 1], entries[|entries| - 1]);
      && last.name in dir && dir[last.name] == last.file && Lists(front, dir - {last.name})
  {
    var front, last := entries[..|entries| - 1], entries[|entries| - 1];
    var rest := dir - {last.name};
    assert last in entries;
    forall name | name in rest
      ensures Entry(name, rest[name]) in front
    {
      assert Entry(name, dir[name]) in entries;
    }
    forall e | e in front
      ensures e.name in rest && rest[e.name] == e.file
    {
      assert e in entries;
    }
  }

  lemma NothingListed(dir: Directory)
    requires Lists([], dir)
    ensures dir == map[]
  {
    assert dir.Keys == {};
  }

  lemma SizeWithout(dir: Directory, name: Name)
    requires name in dir
    ensures |dir| == |dir - {name}| + 1
  {
    assert dir.Keys == (dir - {name}).Keys + {name};
  }

  /** Whatever the order of a listing, it has the directory's count and bytes. */
  lemma {:induction false} ListingIsWhole(entries: seq<Entry>, dir: Directory, scanning: bool)
    requires Lists(entries, dir)
    ensures |entries| == |dir| && Total(entries, scanning) == Usage(dir, scanning)
  {
    hide Charge, Lists;
    if entries == [] {
      NothingListed(dir);
    } else {
      var last := entries[|entries| - 1];
      FrontLists(entries, dir);
      ListingIsWhole(entries[..|entries| - 1], dir - {last.name}, scanning);
      UsageWithout(dir, last.name, scanning);
      SizeWithout(dir, last.name);
      hide Usage;
    }
  }

  lemma {:induction false} TotalConcat(a: seq<Entry>, b: seq<Entry>, scanning: bool)
    ensures Total(a + b, scanning) == Total(a, scanning) + Total(b, scanning)
  {
    if b == [] {
      assert a + b == a;
    } else {
      assert (a + b)[..|a| + |b| - 1] == a + b[..|b| - 1];
      TotalConcat(a, b[..|b| - 1], scanning);
    }
  }

  lemma TotalOfPrefix(entries: seq<Entry>, k: nat, scanning: bool)
    requires k <= |entries|
    ensures Total(entries[..k], scanning) <= Total(entries, scanning)
  {
    assert entries[..k] + entries[k..] == entries;
    TotalConcat(entries[..k], entries[k..], scanning);
  }

  /** Adds to a running total, unless the budget would be exceeded. */
  method ChargeNamedDraftBytes(total: nat, bytes: nat) returns (updated: Option<nat>)
    ensures updated == if total + bytes <= MAX_TOTAL_BYTES then Some(total + bytes) else None
  {
    if total + bytes > MAX_TOTAL_BYTES {
      return None;
    }
    updated := Some(total + bytes);
  }

  // ---- The scan

  predicate ScanFits(entries: seq<Entry>) {
    |entries| <= MAX_DRAFTS && Total(entries, true) <= MAX_TOTAL_BYTES
  }

  predicate IsDraft(e: Entry, parses: string -> bool) {
    e.file.regular && e.file.content.Some? && |e.file.content.value| <= MAX_DRAFT_BYTES && parses(e.file.content.value)
  }

  /** Drafts of one name and contents are one draft: the first of them counts. */
  function Kept(entries: seq<Entry>, parses: string -> bool): seq<Entry> {
    if entries == [] then []
    else
      var front, last := entries[..|entries| - 1], entries[|entries| - 1];
      Kept(front, parses) + if IsDraft(last, parses) && !IsSeen(front, last, parses) then [last] else []
  }

  predicate IsSeen(entries: seq<Entry>, draft: Entry, parses: string -> bool) {
    exists e | e in entries :: IsDraft(e, parses) && e.name == draft.name && e.file.content == draft.file.content
  }

  method ScanNamedDrafts(current: seq<Entry>, legacy: seq<Entry>, parses: string -> bool)
    returns (drafts: Option<seq<Entry>>)
    ensures var entries := current + legacy;
      && (drafts.Some? <==> ScanFits(entries))
      && (drafts.Some? ==> drafts.value == Kept(entries, parses))
  {
    hide Total, Kept, IsDraft, IsSeen, ReadDraft;
    var paths := current + legacy;
    if |paths| > MAX_DRAFTS {
      return None;
    }
    var found, total := [], 0;
    var seen: set<(Name, string)> := {};
    NothingScanned(parses);
    assert paths[..0] == [];
    for i := 0 to |paths|
      invariant total == Total(paths[..i], true) <= MAX_TOTAL_BYTES && found == Kept(paths[..i], parses)
      invariant forall name, bytes ::
        (name, bytes) in seen <==> IsSeen(paths[..i], Entry(name, File(true, Some(bytes))), parses)
    {
      ScanUnfolds(paths, i, parses);
      var file := paths[i].file;
      if file.regular && ReadDraft(file).Some? {
        var bytes := ReadDraft(file).value;
        var updated := ChargeNamedDraftBytes(total, |bytes|);
        if updated.None? {
          return None;
        }
        total := updated.value;
        if |bytes| <= MAX_DRAFT_BYTES && parses(bytes) && (paths[i].name, bytes) !in seen {
          seen := seen + {(paths[i].name, bytes)};
          found := found + [paths[i]];
        }
      }
    }
    assert paths[..|paths|] == paths;
    drafts := Some(found);
  }

  lemma ScanStep(front: seq<Entry>, last: Entry, parses: string -> bool)
    ensures IsDraft(last, parses) ==> last.file.regular && ReadDraft(last.file) == last.file.content
    ensures forall draft: Entry :: IsSeen(front + [last], draft, parses) <==>
      || IsSeen(front, draft, parses)
      || (IsDraft(last, parses) && last.name == draft.name && last.file.content == draft.file.content)
  {
  }

  lemma ScanUnfolds(paths: seq<Entry>, i: nat, parses: string -> bool)
    requires i < |paths|
    ensures Total(paths[..i + 1], true) == Total(paths[..i], true) + Charge(paths[i].file, true) <= Total(paths, true)
    ensures Kept(paths[..i + 1], parses) ==
      Kept(paths[..i], parses)
      + if IsDraft(paths[i], parses) && !IsSeen(paths[..i], paths[i], parses) then [paths[i]] else []
    ensures forall name, bytes ::
      IsSeen(paths[..i + 1], Entry(name, File(true, Some(bytes))), parses) <==>
      || IsSeen(paths[..i], Entry(name, File(true, Some(bytes))), parses)
      || (IsDraft(paths[i], parses) && name == paths[i].name && ReadDraft(paths[i].file) == Some(bytes))
    ensures IsDraft(paths[i], parses) ==>
      && paths[i].file.regular && ReadDraft(paths[i].file).Some?
      && (IsSeen(paths[..i], paths[i], parses) <==>
          IsSeen(paths[..i], Entry(paths[i].name, File(true, ReadDraft(paths[i].file))), parses))
    ensures paths[i].file.regular && ReadDraft(paths[i].file).Some? ==>
      var bytes := ReadDraft(paths[i].file).value;
      IsDraft(paths[i], parses) <==> |bytes| <= MAX_DRAFT_BYTES && parses(bytes)
  {
    assert paths[..i + 1] == paths[..i] + [paths[i]];
    assert paths[..i + 1][..i] == paths[..i];
    ScanStep(paths[..i], paths[i], parses);
    TotalOfPrefix(paths, i + 1, true);
    hide Charge;
  }

  lemma NothingScanned(parses: string -> bool)
    ensures Total([], true) == 0 && Kept([], parses) == [] && forall draft: Entry :: !IsSeen([], draft, parses)
  {
  }

  /** The scan returns every well-formed draft once, and nothing else. */
  lemma {:induction false} KeptAreTheDrafts(entries: seq<Entry>, parses: string -> bool)
    ensures forall e | e in Kept(entries, parses) :: e in entries && IsDraft(e, parses)
    ensures forall draft: Entry :: IsSeen(Kept(entries, parses), draft, parses) <==> IsSeen(entries, draft, parses)
    ensures var kept := Kept(entries, parses);
      forall i, j | 0 <= i < j < |kept| :: kept[i].name != kept[j].name || kept[i].file.content != kept[j].file.content
  {
    if entries != [] {
      var front, last := entries[..|entries| - 1], entries[|entries| - 1];
      KeptAreTheDrafts(front, parses);
      assert front + [last] == entries;
      ScanStep(front, last, parses);
      ScanStep(Kept(front, parses), last, parses);
      assert Kept(front, parses) + [] == Kept(front, parses);
      var kept := Kept(entries, parses);
      if |kept| > |Kept(front, parses)| {
        forall i | 0 <= i < |kept| - 1
          ensures kept[i].name != last.name || kept[i].file.content != last.file.content
        {
          assert kept[i] in Kept(front, parses);
        }
      }
      hide IsDraft, IsSeen;
    }
  }

  predicate Shows(drafts: seq<Entry>, name: Name, bytes: string) {
    exists e | e in drafts :: e.name == name && e.file.content == Some(bytes)
  }

  predicate HasDraft(dir: Directory, name: Name, bytes: string) {
    name in dir && dir[name] == File(true, Some(bytes))
  }

  lemma ListedDrafts(entries: seq<Entry>, dir: Directory, name: Name, bytes: string, parses: string -> bool)
    requires Lists(entries, dir)
    ensures IsSeen(entries, Entry(name, File(true, Some(bytes))), parses) <==>
      HasDraft(dir, name, bytes) && |bytes| <= MAX_DRAFT_BYTES && parses(bytes)
  {
    if HasDraft(dir, name, bytes) {
      assert Entry(name, dir[name]) in entries;
    }
  }

  lemma SeenInEither(a: seq<Entry>, b: seq<Entry>, draft: Entry, parses: string -> bool)
    ensures IsSeen(a + b, draft, parses) <==> IsSeen(a, draft, parses) || IsSeen(b, draft, parses)
  {
    hide IsDraft;
  }

  /** In terms of the two directories: the scan succeeds exactly if count and bytes
      fit, and shows exactly the regular files within the limit that parse. */
  lemma ScanIsExact(current: Directory, legacy: Directory, before: seq<Entry>, beside: seq<Entry>,
                    parses: string -> bool)
    requires Lists(before, current) && Lists(beside, legacy)
    ensures ScanFits(before + beside) <==>
      |current| + |legacy| <= 256 && Usage(current, true) + Usage(legacy, true) <= 32 * 1024 * 1024
    ensures forall name, bytes :: Shows(Kept(before + beside, parses), name, bytes) <==>
        && |bytes| <= 2 * 1024 * 1024 && parses(bytes)
        && (HasDraft(current, name, bytes) || HasDraft(legacy, name, bytes))
  {
    hide Lists, Total, Usage, Kept, IsDraft, IsSeen, HasDraft, Shows;
    ListingIsWhole(before, current, true);
    ListingIsWhole(beside, legacy, true);
    TotalConcat(before, beside, true);
    forall name, bytes
      ensures Shows(Kept(before + beside, parses), name, bytes) <==>
        && |bytes| <= 2 * 1024 * 1024 && parses(bytes)
        && (HasDraft(current, name, bytes) || HasDraft(legacy, name, bytes))
    {
      var draft := Entry(name, File(true, Some(bytes)));
      ListedDrafts(before, current, name, bytes, parses);
      ListedDrafts(beside, legacy, name, bytes, parses);
      SeenInEither(before, beside, draft, parses);
      KeptIsSeen(before + beside, name, bytes, parses);
    }
  }

  lemma KeptIsSeen(entries: seq<Entry>, name: Name, bytes: string, parses: string -> bool)
    ensures Shows(Kept(entries, parses), name, bytes) <==> IsSeen(entries, Entry(name, File(true, Some(bytes))), parses)
  {
    KeptAreTheDrafts(entries, parses);
    hide IsDraft, Kept;
  }

  // ---- Saving

  predicate IsListed(entries: seq<Entry>, name: Name) {
    exists e | e in entries :: e.name == name
  }

  /** The bytes a replaced draft gives back. */
  function Replaced(entries: seq<Entry>, replacement: Option<Name>): nat {
    if entries == [] then 0
    else if Some(entries[|entries| - 1].name) == replacement then Charge(entries[|entries| - 1].file, false)
    else Replaced(entries[..|entries| - 1], replacement)
  }

  predicate IsRegular(entries: seq<Entry>, name: Name) {
    exists e | e in entries :: e.name == name && e.file.regular
  }

  predicate AllAreReadable(entries: seq<Entry>) {
    forall e | e in entries :: e.file.content.Some? && |e.file.content.value| <= MAX_DRAFT_BYTES
  }

  /** A save is admitted: every current draft can be read whole, and the count and
      the bytes, with those of a legacy entry only if it can be read, leave room. */
  predicate SaveFits(current: seq<Entry>, legacy: seq<Entry>, replacement: Option<Name>, size: nat) {
    && size <= MAX_DRAFT_BYTES
    && |current| + |legacy| + (if replacement.None? then 1 else 0) <= MAX_DRAFTS
    && (replacement.Some? ==> IsRegular(current, replacement.value))
    && AllAreReadable(current)
    && Total(current, false) + Total(legacy, false) <= MAX_TOTAL_BYTES
    && Total(current, false) + Total(legacy, false) - Replaced(current, replacement) + size <= MAX_TOTAL_BYTES
  }

  lemma ReplacedIsCharged(entries: seq<Entry>, replacement: Option<Name>)
    ensures Replaced(entries, replacement) <= if replacement.None? then 0 else Total(entries, false)
  {
  }

  /** A current draft that cannot be read whole stops the save. */
  method ReadBounded(file: File, total: nat) returns (bytes: Option<string>, updated: nat)
    requires total <= MAX_TOTAL_BYTES
    ensures bytes.Some? <==>
      && file.content.Some? && |file.content.value| <= MAX_DRAFT_BYTES
      && total + Charge(file, false) <= MAX_TOTAL_BYTES
    ensures bytes.Some? ==>
      bytes == file.content && updated == total + Charge(file, false) && |bytes.value| == Charge(file, false)
  {
    bytes, updated := ReadDraft(file), total;
    if bytes.None? || |bytes.value| > MAX_DRAFT_BYTES {
      return None, total;
    }
    var charged := ChargeNamedDraftBytes(total, |bytes.value|);
    if charged.None? {
      return None, total;
    }
    updated := charged.value;
  }

  method EnsureNamedDraftSaveFits(paths: seq<Entry>, legacyPaths: seq<Entry>, replacement: Option<Name>, size: nat)
    returns (fits: bool)
    requires forall i, j | 0 <= i < j < |paths| :: paths[i].name != paths[j].name
    ensures fits <==> SaveFits(paths, legacyPaths, replacement, size)
  {
    hide Charge, Total, Replaced;
    if size > MAX_DRAFT_BYTES || |paths| + |legacyPaths| > MAX_DRAFTS {
      return false;
    }
    if replacement.Some? && !IsRegular(paths, replacement.value) {
      return false;
    }
    if |paths| + |legacyPaths| + (if replacement.None? then 1 else 0) > MAX_DRAFTS {
      return false;
    }
    var total, replaced := 0, 0;
    SavingNothing(replacement);
    assert paths[..0] == [] && legacyPaths[..0] == [];
    for i := 0 to |paths|
      invariant total == Total(paths[..i], false) <= MAX_TOTAL_BYTES && replaced == Replaced(paths[..i], replacement)
      invariant forall e | e in paths[..i] :: e.file.content.Some? && |e.file.content.value| <= MAX_DRAFT_BYTES
    {
      SavingUnfolds(paths, i, replacement);
      var bytes;
      bytes, total := ReadBounded(paths[i].file, total);
      if bytes.None? {
        return false;
      }
      if replacement == Some(paths[i].name) {
        replaced := |bytes.value|;
      }
    }
    assert paths[..|paths|] == paths;
    ghost var before := total;
    for i := 0 to |legacyPaths|
      invariant total == before + Total(legacyPaths[..i], false) <= MAX_TOTAL_BYTES
    {
      SavingUnfolds(legacyPaths, i, replacement);
      var bytes := ReadDraft(legacyPaths[i].file);
      if bytes.Some? {
        var charged := ChargeNamedDraftBytes(total, |bytes.value|);
        if charged.None? {
          return false;
        }
        total := charged.value;
      }
    }
    assert legacyPaths[..|legacyPaths|] == legacyPaths;
    ReplacedIsCharged(paths, replacement);
    fits := total - replaced + size <= MAX_TOTAL_BYTES;
  }

  lemma SavingNothing(replacement: Option<Name>)
    ensures Total([], false) == 0 && Replaced([], replacement) == 0
  {
  }

  lemma SavingUnfolds(paths: seq<Entry>, i: nat, replacement: Option<Name>)
    requires i < |paths|
    ensures Total(paths[..i + 1], false) ==
      Total(paths[..i], false) + Charge(paths[i].file, false) <= Total(paths, false)
    ensures Charge(paths[i].file, false) ==
      if ReadDraft(paths[i].file).Some? then |ReadDraft(paths[i].file).value| else 0
    ensures Replaced(paths[..i + 1], replacement) ==
      if Some(paths[i].name) == replacement then Charge(paths[i].file, false) else Replaced(paths[..i], replacement)
  {
    assert paths[..i + 1][..i] == paths[..i];
    TotalOfPrefix(paths, i + 1, false);
  }

  lemma {:induction false} ReplacedIsTheirs(entries: seq<Entry>, e: Entry)
    requires e in entries && forall i, j | 0 <= i < j < |entries| :: entries[i].name != entries[j].name
    ensures Replaced(entries, Some(e.name)) == Charge(e.file, false)
  {
    hide Charge;
    if entries[|entries| - 1] != e {
      ReplacedIsTheirs(entries[..|entries| - 1], e);
    }
  }

  lemma ReplacementIsThere(entries: seq<Entry>, dir: Directory, name: Name)
    requires Lists(entries, dir) && IsRegular(entries, name)
    ensures name in dir && Replaced(entries, Some(name)) == Charge(dir[name], false)
  {
    var e :| e in entries && e.name == name;
    ReplacedIsTheirs(entries, e);
  }

  /** After an admitted save no scan of the two directories fails, whatever the
      order of their listings. */
  lemma SavedDraftsScan(current: Directory, legacy: Directory, replacement: Option<Name>, name: Name, bytes: string,
                        before: seq<Entry>, beside: seq<Entry>, after: seq<Entry>, legacyAfter: seq<Entry>)
    requires Lists(before, current) && Lists(beside, legacy)
    requires SaveFits(before, beside, replacement, |bytes|) && (replacement.Some? ==> name == replacement.value)
    requires Lists(after, current[name := File(true, Some(bytes))]) && Lists(legacyAfter, legacy)
    ensures ScanFits(after + legacyAfter)
  {
    hide Lists, Total, Usage, Replaced, Charge, IsRegular, AllAreReadable;
    var file := File(true, Some(bytes));
    var saved := current[name := file];
    ListingIsWhole(before, current, false);
    ListingIsWhole(beside, legacy, false);
    ListingIsWhole(after, saved, true);
    ListingIsWhole(legacyAfter, legacy, true);
    ScanningChargesLess(saved);
    ScanningChargesLess(legacy);
    TotalConcat(after, legacyAfter, true);
    UsageWith(current, name, file, false);
    WholeFileCharge(file, bytes);
    ReplacedIsCharged(before, replacement);
    assert saved.Keys == current.Keys + {name};
    if replacement.Some? {
      ReplacementIsThere(before, current, name);
      assert saved.Keys == current.Keys;
    }
  }

  lemma WholeFileCharge(file: File, bytes: string)
    requires file.content == Some(bytes) && |bytes| <= MAX_DRAFT_BYTES
    ensures Charge(file, false) == |bytes|
  {
  }

  lemma ListedAre(entries: seq<Entry>, dir: Directory)
    requires Lists(entries, dir)
    ensures forall name :: IsRegular(entries, name) <==> name in dir && dir[name].regular
    ensures AllAreReadable(entries) <==>
      forall name | name in dir :: dir[name].content.Some? && |dir[name].content.value| <= MAX_DRAFT_BYTES
  {
    forall name | name in dir
      ensures Entry(name, dir[name]) in entries
    {
    }
  }

  lemma NothingReplaced(entries: seq<Entry>)
    ensures Replaced(entries, None) == 0
  {
  }

  /** A save is admitted exactly if the current drafts are readable, a replaced one
      is a file, and both directories fit their limits before it and after it. */
  lemma AdmittedSavesFit(current: Directory, legacy: Directory, replacement: Option<Name>, name: Name, bytes: string,
                         before: seq<Entry>, beside: seq<Entry>)
    requires Lists(before, current) && Lists(beside, legacy)
    requires if replacement.Some? then name == replacement.value else name !in current
    ensures var saved := current[name := File(true, Some(bytes))];
      SaveFits(before, beside, replacement, |bytes|) <==>
        && |bytes| <= MAX_DRAFT_BYTES
        && (replacement.Some? ==> name in current && current[name].regular)
        && (forall n | n in current :: current[n].content.Some? && |current[n].content.value| <= MAX_DRAFT_BYTES)
        && |saved| + |legacy| <= MAX_DRAFTS
        && Usage(current, false) + Usage(legacy, false) <= MAX_TOTAL_BYTES
        && Usage(saved, false) + Usage(legacy, false) <= MAX_TOTAL_BYTES
  {
    hide Lists, Total, Usage, Replaced, Charge, IsRegular, AllAreReadable;
    var file := File(true, Some(bytes));
    var saved := current[name := file];
    ListingIsWhole(before, current, false);
    ListingIsWhole(beside, legacy, false);
    ListedAre(before, current);
    if |bytes| <= MAX_DRAFT_BYTES {
      WholeFileCharge(file, bytes);
    }
    UsageWith(current, name, file, false);
    assert saved.Keys == current.Keys + {name};
    if replacement.None? {
      NothingReplaced(before);
    } else if IsRegular(before, name) {
      ReplacementIsThere(before, current, name);
      assert saved.Keys == current.Keys;
    }
  }
}
