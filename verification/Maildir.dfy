// The name a message file is expected to have once its flags follow its tags
// (crates/notm-notmuch/src/database.rs, `expected_maildir_filename_bytes`). The
// bytes of a name are numbers here; nothing depends on their bound.
module Maildir {
  import opened MailText
  import opened OrderedSets

  const SLASH: nat := 47
  const COLON: nat := 58
  const TWO: nat := 50
  const COMMA: nat := 44

  /** The letters that stand for tags: draft, flagged, passed, replied, seen. */
  const TAG_FLAGS: seq<nat> := [68, 70, 80, 82, 83]

  predicate AreFlags(flags: seq<nat>) {
    Increasing(flags) && forall flag | flag in flags :: flag < 128
  }

  // ---- Flags and tags

  predicate Wants(tags: seq<string>, flag: nat) {
    || (flag == TAG_FLAGS[0] && "draft" in tags)
    || (flag == TAG_FLAGS[1] && "flagged" in tags)
    || (flag == TAG_FLAGS[2] && "passed" in tags)
    || (flag == TAG_FLAGS[3] && "replied" in tags)
    || (flag == TAG_FLAGS[4] && "unread" !in tags)
  }

  function WithTags(flags: seq<nat>, tags: seq<string>, k: nat): seq<nat>
    requires k <= |TAG_FLAGS|
  {
    if k == 0 then flags
    else
      var flag := TAG_FLAGS[k - 1];
      if Wants(tags, flag) then Inserted(WithTags(flags, tags, k - 1), flag)
      else Deleted(WithTags(flags, tags, k - 1), flag)
  }

  lemma {:induction false} TagsDecide(flags: seq<nat>, tags: seq<string>, k: nat)
    requires Increasing(flags) && k <= |TAG_FLAGS|
    ensures Increasing(WithTags(flags, tags, k))
    ensures forall b :: b in WithTags(flags, tags, k) <==> if b in TAG_FLAGS[..k] then Wants(tags, b) else b in flags
  {
    if k > 0 {
      hide Increasing, Inserted, Deleted, Wants;
      TagsDecide(flags, tags, k - 1);
      InsertedHolds(WithTags(flags, tags, k - 1), TAG_FLAGS[k - 1]);
      DeletedHolds(WithTags(flags, tags, k - 1), TAG_FLAGS[k - 1]);
      TagFlagsDiffer(k - 1);
    }
  }

  lemma TagFlagsDiffer(k: nat)
    requires k < |TAG_FLAGS|
    ensures TAG_FLAGS[k] !in TAG_FLAGS[..k] && TAG_FLAGS[..k + 1] == TAG_FLAGS[..k] + [TAG_FLAGS[k]]
  {
  }

  lemma FlagsFollowTags(flags: seq<nat>, tags: seq<string>)
    requires AreFlags(flags)
    ensures var fixed := WithTags(flags, tags, 5);
      && AreFlags(fixed)
      && (forall b :: b in fixed <==> if b in TAG_FLAGS then Wants(tags, b) else b in flags)
      && (fixed == flags <==> forall b | b in TAG_FLAGS :: b in flags <==> Wants(tags, b))
      && WithTags(fixed, tags, 5) == fixed
  {
    TagsDecide(flags, tags, 5);
    var fixed := WithTags(flags, tags, 5);
    TagsDecide(fixed, tags, 5);
    assert TAG_FLAGS[..5] == TAG_FLAGS;
    assert forall b | b in TAG_FLAGS :: b < 128;
    hide WithTags, Wants, Increasing;
    SameAreEqual(WithTags(fixed, tags, 5), fixed);
    if forall b | b in TAG_FLAGS :: b in flags <==> Wants(tags, b) {
      SameAreEqual(fixed, flags);
    }
  }

  // ---- Reading a name

  /** The last slash before n. */
  function LastSlash(name: seq<nat>, n: nat): (slash: Option<nat>)
    requires n <= |name|
    ensures slash.Some? ==>
      slash.value < n && name[slash.value] == SLASH && forall k | slash.value < k < n :: name[k] != SLASH
    ensures slash.None? ==> forall k | 0 <= k < n :: name[k] != SLASH
  {
    if n == 0 then None else if name[n - 1] == SLASH then Some(n - 1) else LastSlash(name, n - 1)
  }

  predicate IsInfo(name: seq<nat>, i: int) {
    0 <= i && i + 3 <= |name| && name[i] == COLON && name[i + 1] == TWO && name[i + 2] == COMMA
  }

  /** The last place at or before n where the flags are announced. */
  function LastInfo(name: seq<nat>, n: nat): (info: Option<nat>)
    ensures info.Some? ==>
      info.value < n && IsInfo(name, info.value) && forall k | info.value < k < n :: !IsInfo(name, k)
    ensures info.None? ==> forall k | 0 <= k < n :: !IsInfo(name, k)
  {
    if n == 0 then None else if IsInfo(name, n - 1) then Some(n - 1) else LastInfo(name, n - 1)
  }

  predicate IsCur(name: seq<nat>, start: nat, slash: nat)
    requires start <= slash <= |name|
  {
    slash - start == 3 && name[start] == 99 && name[start + 1] == 117 && name[start + 2] == 114
  }

  predicate IsNew(name: seq<nat>, start: nat, slash: nat)
    requires start <= slash <= |name|
  {
    slash - start == 3 && name[start] == 110 && name[start + 1] == 101 && name[start + 2] == 119
  }

  /** Where the directory starts and ends, and where the base name does. */
  datatype Parts = Parts(start: nat, slash: nat, info: Option<nat>)

  function Split(name: seq<nat>): (parts: Option<Parts>)
    ensures parts.Some? ==>
      && parts.value.start <= parts.value.slash < |name|
      && (parts.value.info.Some? ==> parts.value.slash < parts.value.info.value && parts.value.info.value + 3 <= |name|)
  {
    var slash := LastSlash(name, |name|);
    if slash.None? then None
    else
      var above := LastSlash(name, slash.value);
      var start := if above.Some? then above.value + 1 else 0;
      var info := LastInfo(name, |name|);
      if !IsCur(name, start, slash.value) && !IsNew(name, start, slash.value) then None
      else Some(Parts(start, slash.value, if info.Some? && info.value > slash.value then info else None))
  }

  function BaseEnd(name: seq<nat>, parts: Parts): nat {
    if parts.info.Some? then parts.info.value else |name|
  }

  function Flags(name: seq<nat>, parts: Parts): seq<nat>
    requires parts.info.Some? ==> parts.info.value + 3 <= |name|
  {
    if parts.info.Some? then name[parts.info.value + 3..] else []
  }

  /** A name in `cur` or `new` whose flags, if any, are well-formed. */
  predicate IsMaildirName(name: seq<nat>) {
    Split(name).Some? && AreFlags(Flags(name, Split(name).value))
  }

  // ---- The expected name

  function Renamed(name: seq<nat>, parts: Parts, flags: seq<nat>): seq<nat>
    requires parts.start <= parts.slash < BaseEnd(name, parts) <= |name|
  {
    name[..parts.start] + [99, 117, 114] + name[parts.slash..BaseEnd(name, parts)] + [COLON, TWO, COMMA] + flags
  }

  function Expected(name: seq<nat>, tags: seq<string>): seq<nat> {
    if !IsMaildirName(name) then name
    else
      var parts := Split(name).value;
      var flags := WithTags(Flags(name, parts), tags, 5);
      if IsNew(name, parts.start, parts.slash) && parts.info.None? && flags == [] then name
      else Renamed(name, parts, flags)
  }

  method FindLastSlash(name: seq<nat>, n: nat) returns (slash: Option<nat>)
    requires n <= |name|
    ensures slash == LastSlash(name, n)
  {
    var i: nat := n;
    while i > 0
      invariant i <= n && LastSlash(name, n) == LastSlash(name, i)
    {
      i := i - 1;
      if name[i] == SLASH {
        return Some(i);
      }
    }
    slash := None;
  }

  method FindLastInfo(name: seq<nat>) returns (info: Option<nat>)
    ensures info == LastInfo(name, |name|)
  {
    var i: nat := |name|;
    while i > 0
      invariant i <= |name| && LastInfo(name, |name|) == LastInfo(name, i)
    {
      i := i - 1;
      if IsInfo(name, i) {
        return Some(i);
      }
    }
    info := None;
  }

  /** Reads flags into an ordered set, which they are only if strictly increasing. */
  method ReadFlags(bytes: seq<nat>) returns (flags: Option<seq<nat>>)
    ensures flags == if AreFlags(bytes) then Some(bytes) else None
  {
    var read: seq<nat> := [];
    for i := 0 to |bytes|
      invariant read == bytes[..i] && AreFlags(read)
    {
      if bytes[i] >= 128 || (i > 0 && bytes[i] < bytes[i - 1]) || bytes[i] in read {
        FlagIsNot(bytes, i);
        return None;
      }
      assert forall j | 0 <= j < i :: bytes[j] < bytes[i] by {
        assert i > 0 ==> bytes[i - 1] in read;
      }
      read := read + [bytes[i]];
    }
    assert bytes[..|bytes|] == bytes;
    flags := Some(read);
  }

  lemma FlagIsNot(bytes: seq<nat>, i: nat)
    requires i < |bytes| && (bytes[i] >= 128 || (i > 0 && bytes[i] < bytes[i - 1]) || bytes[i] in bytes[..i])
    ensures !AreFlags(bytes)
  {
    assert bytes[i] in bytes;
    if bytes[i] in bytes[..i] {
      var j :| 0 <= j < i && bytes[..i][j] == bytes[i];
      assert bytes[j] == bytes[i];
    }
  }

  /** Sets and clears the tag letters, noting whether any of them changed. */
  method FixFlags(read: seq<nat>, tags: seq<string>) returns (flags: seq<nat>, changed: bool)
    requires AreFlags(read)
    ensures flags == WithTags(read, tags, 5) && (changed <==> flags != read)
  {
    hide Inserted, Deleted, Increasing, Wants;
    flags, changed := read, false;
    for k := 0 to |TAG_FLAGS|
      invariant flags == WithTags(read, tags, k)
      invariant changed <==> exists b | b in TAG_FLAGS[..k] :: (b in read) != Wants(tags, b)
    {
      var flag := TAG_FLAGS[k];
      TagsDecide(read, tags, k);
      TagFlagsDiffer(k);
      if Wants(tags, flag) {
        changed := changed || flag !in flags;
        flags := Inserted(flags, flag);
      } else {
        changed := changed || flag in flags;
        flags := Deleted(flags, flag);
      }
    }
    assert TAG_FLAGS[..5] == TAG_FLAGS;
    FlagsFollowTags(read, tags);
  }

  lemma ExpectedIs(name: seq<nat>, tags: seq<string>, parts: Parts)
    requires Split(name) == Some(parts)
    ensures !AreFlags(Flags(name, parts)) ==> Expected(name, tags) == name
    ensures AreFlags(Flags(name, parts)) ==>
      var flags := WithTags(Flags(name, parts), tags, 5);
      Expected(name, tags) ==
        if IsNew(name, parts.start, parts.slash) && parts.info.None? && flags == [] then name
        else Renamed(name, parts, flags)
  {
    hide AreFlags, WithTags, IsNew, Renamed;
  }

  lemma NothingExpected(name: seq<nat>, tags: seq<string>)
    ensures Split(name).None? ==> Expected(name, tags) == name
  {
  }

  method ExpectedMaildirFilename(name: seq<nat>, tags: seq<string>) returns (expected: seq<nat>)
    ensures expected == Expected(name, tags)
  {
    hide WithTags, LastSlash, LastInfo, AreFlags, Expected, Renamed;
    NothingExpected(name, tags);
    var slash := FindLastSlash(name, |name|);
    if slash.None? {
      return name;
    }
    var above := FindLastSlash(name, slash.value);
    var start := if above.Some? then above.value + 1 else 0;
    if !IsCur(name, start, slash.value) && !IsNew(name, start, slash.value) {
      return name;
    }
    var info := FindLastInfo(name);
    if info.Some? && info.value <= slash.value {
      info := None;
    }
    var parts := Parts(start, slash.value, info);
    assert Split(name) == Some(parts);
    ExpectedIs(name, tags, parts);
    hide Split;
    var read := ReadFlags(Flags(name, parts));
    if read.None? {
      return name;
    }
    var flags, changed := FixFlags(read.value, tags);
    if IsNew(name, start, slash.value) && info.None? && !changed {
      return name;
    }
    expected := name[..BaseEnd(name, parts)] + [COLON, TWO, COMMA] + flags;
    SpliceIsRenamed(name, parts, flags);
    if IsNew(name, start, slash.value) {
      expected := expected[..start] + [99, 117, 114] + expected[slash.value..];
    }
  }

  lemma SpliceIsRenamed(name: seq<nat>, parts: Parts, flags: seq<nat>)
    requires parts.start <= parts.slash < BaseEnd(name, parts) <= |name|
    requires IsCur(name, parts.start, parts.slash) || IsNew(name, parts.start, parts.slash)
    ensures var written := name[..BaseEnd(name, parts)] + [COLON, TWO, COMMA] + flags;
      Renamed(name, parts, flags) ==
        if IsNew(name, parts.start, parts.slash)
        then written[..parts.start] + [99, 117, 114] + written[parts.slash..]
        else written
  {
    var end := BaseEnd(name, parts);
    var tail := [COLON, TWO, COMMA] + flags;
    var written := name[..end] + [COLON, TWO, COMMA] + flags;
    assert written == name[..end] + tail;
    assert written[parts.slash..] == name[parts.slash..end] + tail;
    assert Renamed(name, parts, flags) == name[..parts.start] + [99, 117, 114] + (name[parts.slash..end] + tail);
    if IsCur(name, parts.start, parts.slash) {
      assert name[parts.start..parts.slash] == [99, 117, 114];
      assert name[..end] == name[..parts.start] + name[parts.start..parts.slash] + name[parts.slash..end];
    } else {
      assert written[..parts.start] == name[..parts.start];
    }
  }

  // ---- What the expected name keeps and says

  lemma SplitIs(name: seq<nat>, parts: Parts)
    requires parts.start <= parts.slash < BaseEnd(name, parts) <= |name|
    requires IsCur(name, parts.start, parts.slash)
    requires name[parts.slash] == SLASH && forall k | parts.slash < k < |name| :: name[k] != SLASH
    requires parts.start > 0 ==> name[parts.start - 1] == SLASH
    requires parts.info.Some? && IsInfo(name, parts.info.value)
    requires forall k | parts.info.value < k < |name| :: !IsInfo(name, k)
    ensures Split(name) == Some(parts)
  {
    var slash, info := LastSlash(name, |name|), LastInfo(name, |name|);
    assert slash == Some(parts.slash);
    assert IsInfo(name, parts.info.value);
    assert info == parts.info;
    var above := LastSlash(name, parts.slash);
    assert forall k | parts.start <= k < parts.slash :: name[k] != SLASH;
    hide LastSlash, LastInfo;
  }

  lemma SplitSays(name: seq<nat>)
    requires Split(name).Some?
    ensures var parts := Split(name).value;
      && name[parts.slash] == SLASH && (forall k | parts.slash < k < |name| :: name[k] != SLASH)
      && (parts.start > 0 ==> name[parts.start - 1] == SLASH)
      && parts.slash - parts.start == 3
  {
  }

  lemma RenamedPieces(name: seq<nat>, parts: Parts, flags: seq<nat>)
    requires parts.start <= parts.slash < BaseEnd(name, parts) <= |name| && parts.slash - parts.start == 3
    ensures var (renamed, end) := (Renamed(name, parts, flags), BaseEnd(name, parts));
      && |renamed| == end + 3 + |flags|
      && renamed[..parts.start] == name[..parts.start] && IsCur(renamed, parts.start, parts.slash)
      && renamed[parts.slash..end] == name[parts.slash..end] && IsInfo(renamed, end) && renamed[end + 3..] == flags
      && (forall k | 0 <= k < parts.start || parts.slash <= k < end :: renamed[k] == name[k])
      && (forall k | end + 3 <= k < |renamed| :: renamed[k] == flags[k - end - 3])
  {
    var end := BaseEnd(name, parts);
    var front := name[..parts.start] + [99, 117, 114] + name[parts.slash..end];
    assert |front| == end;
    var renamed := Renamed(name, parts, flags);
    assert renamed == front + [COLON, TWO, COMMA] + flags;
    assert renamed[..end] == front;
  }

  /** After a rewrite the last announcement of flags is the one just written. */
  lemma RenamedIsSplit(name: seq<nat>, flags: seq<nat>)
    requires IsMaildirName(name) && AreFlags(flags) && SLASH !in flags
    ensures var parts := Split(name).value;
      var end := BaseEnd(name, parts);
      var renamed := Renamed(name, parts, flags);
      && Split(renamed) == Some(Parts(parts.start, parts.slash, Some(end)))
      && Flags(renamed, Split(renamed).value) == flags
      && IsCur(renamed, parts.start, parts.slash)
      && renamed[..parts.start] == name[..parts.start]
      && renamed[parts.slash..end] == name[parts.slash..end]
  {
    var parts := Split(name).value;
    var end := BaseEnd(name, parts);
    var renamed := Renamed(name, parts, flags);
    SplitSays(name);
    RenamedPieces(name, parts, flags);
    hide Split, Renamed, IsCur, LastSlash, LastInfo;
    forall k | end < k < |renamed|
      ensures !IsInfo(renamed, k)
    {
      if k >= end + 3 && k + 1 < |renamed| {
        assert flags[k - end - 3] < flags[k + 1 - end - 3];
      }
    }
    forall k | parts.slash < k < |renamed|
      ensures renamed[k] != SLASH
    {
      if k >= end + 3 {
        assert flags[k - end - 3] in flags;
      }
    }
    SplitIs(renamed, Parts(parts.start, parts.slash, Some(end)));
  }

  /** A well-formed name keeps its place, its base and its other flags; it stays as
      it is or lies in `cur`; and its letters are in order and say what the tags do. */
  lemma ExpectedFollowsTags(name: seq<nat>, tags: seq<string>)
    requires IsMaildirName(name)
    ensures IsMaildirName(Expected(name, tags))
    ensures var (before, after) := (Split(name).value, Split(Expected(name, tags)).value);
      var expected := Expected(name, tags);
      && after.start == before.start && after.slash == before.slash && expected[..after.start] == name[..before.start]
      && expected[after.slash..BaseEnd(expected, after)] == name[before.slash..BaseEnd(name, before)]
      && (IsCur(expected, after.start, after.slash) || (expected == name && before.info.None?))
      && (forall flag :: flag in Flags(expected, after) <==>
            if flag in TAG_FLAGS then Wants(tags, flag) else flag in Flags(name, before))
  {
    var parts := Split(name).value;
    FlagsFollowTags(Flags(name, parts), tags);
    NoSlashInFlags(name, tags);
    var flags := WithTags(Flags(name, parts), tags, 5);
    RenamedIsSplit(name, flags);
    hide Split, WithTags, AreFlags, Wants;
  }

  lemma NoSlashInFlags(name: seq<nat>, tags: seq<string>)
    requires IsMaildirName(name)
    ensures SLASH !in WithTags(Flags(name, Split(name).value), tags, 5)
  {
    FlagsFollowTags(Flags(name, Split(name).value), tags);
    assert SLASH !in TAG_FLAGS;
  }

  /** Renaming again changes nothing. */
  lemma ExpectedIsIdempotent(name: seq<nat>, tags: seq<string>)
    ensures Expected(Expected(name, tags), tags) == Expected(name, tags)
  {
    if IsMaildirName(name) && Expected(name, tags) != name {
      var parts := Split(name).value;
      var flags := WithTags(Flags(name, parts), tags, 5);
      FlagsFollowTags(Flags(name, parts), tags);
      NoSlashInFlags(name, tags);
      RenamedIsSplit(name, flags);
      hide Split, WithTags, AreFlags, Wants;
      var renamed := Renamed(name, parts, flags);
      var again := Split(renamed).value;
      assert Renamed(renamed, again, flags) == renamed;
    }
  }
}
