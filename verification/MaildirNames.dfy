// What the names of message files become, spelled out: `cur`, the base name and
// the letters of the tags (crates/notm-notmuch/src/database.rs).
module MaildirNames {
  import opened MailText
  import opened Maildir

  /** The bytes of an ASCII text. */
  function Bytes(text: string): (bytes: seq<nat>)
    ensures |bytes| == |text|
  {
    seq(|text|, k requires 0 <= k < |text| => text[k] as nat)
  }

  /** A letter is in the flags of a name exactly as its tag says; `S` is for what
      is not unread. Other flags stay. */
  ghost predicate SaysTags(letters: seq<nat>, before: seq<nat>, tags: seq<string>) {
    && ('D' as nat in letters <==> "draft" in tags)
    && ('F' as nat in letters <==> "flagged" in tags)
    && ('P' as nat in letters <==> "passed" in tags)
    && ('R' as nat in letters <==> "replied" in tags)
    && ('S' as nat in letters <==> "unread" !in tags)
    && forall letter: nat | letter < 128 && letter as char !in "DFPRS" :: letter in letters <==> letter in before
  }

  lemma LettersSayTags(before: seq<nat>, tags: seq<string>)
    requires AreFlags(before)
    ensures AreFlags(WithTags(before, tags, 5)) && SaysTags(WithTags(before, tags, 5), before, tags)
    ensures SLASH !in before ==> SLASH !in WithTags(before, tags, 5)
  {
    hide WithTags, AreFlags, Wants;
    FlagsFollowTags(before, tags);
    TagLetters(tags);
  }

  lemma TagLetters(tags: seq<string>)
    ensures forall letter: nat | letter < 128 :: letter in TAG_FLAGS <==> letter as char in "DFPRS"
    ensures TAG_FLAGS == ['D' as nat, 'F' as nat, 'P' as nat, 'R' as nat, 'S' as nat] && SLASH !in TAG_FLAGS
    ensures Wants(tags, 'D' as nat) <==> "draft" in tags
    ensures Wants(tags, 'F' as nat) <==> "flagged" in tags
    ensures Wants(tags, 'P' as nat) <==> "passed" in tags
    ensures Wants(tags, 'R' as nat) <==> "replied" in tags
    ensures Wants(tags, 'S' as nat) <==> "unread" !in tags
  {
    var letters := "DFPRS";
    assert letters[0] == 'D' && letters[1] == 'F' && letters[2] == 'P' && letters[3] == 'R' && letters[4] == 'S';
    forall letter: nat | letter < 128
      ensures letter in TAG_FLAGS <==> letter as char in letters
    {
      assert letter as char in letters <==>
        letter == 68 || letter == 70 || letter == 80 || letter == 82 || letter == 83;
    }
  }

  /** A directory's path, if any, with its slash. */
  predicate IsPath(path: seq<nat>) {
    path == [] || path[|path| - 1] == '/' as nat
  }

  lemma FilePieces(path: seq<nat>, directory: string, base: seq<nat>)
    requires directory in ["cur", "new"] && '/' as nat !in base && IsPath(path)
    ensures var name := path + Bytes(directory) + Bytes("/") + base;
      var slash := |path| + 3;
      && name[..|path|] == path && name[slash..] == Bytes("/") + base
      && LastSlash(name, |name|) == Some(slash)
      && LastSlash(name, slash) == (if path == [] then None else Some(|path| - 1))
      && (IsCur(name, |path|, slash) <==> directory == "cur")
      && (IsNew(name, |path|, slash) <==> directory == "new")
  {
    var name := path + Bytes(directory) + Bytes("/") + base;
    var slash := |path| + 3;
    assert forall k | 0 <= k < 3 :: name[|path| + k] == directory[k] as nat;
    assert name[slash] == SLASH && forall k | slash < k < |name| :: name[k] == base[k - slash - 1];
    assert forall k | |path| <= k < slash :: name[k] != SLASH;
    hide LastSlash;
  }

  /** A file's name, in whichever directory, its base and what it says of its flags. */
  function FileName(path: seq<nat>, directory: string, base: seq<nat>, info: seq<nat>): seq<nat> {
    path + Bytes(directory) + Bytes("/") + (base + info)
  }

  lemma FileIsSplit(path: seq<nat>, directory: string, base: seq<nat>, info: seq<nat>, at: Option<nat>)
    requires directory in ["cur", "new"] && '/' as nat !in base && '/' as nat !in info && IsPath(path)
    requires var name := FileName(path, directory, base, info);
      if info == [] then at.None? && forall k | |path| + 3 < k < |name| :: !IsInfo(name, k)
      else at == Some(|path| + 4 + |base|) && IsInfo(name, at.value)
           && forall k | at.value < k < |name| :: !IsInfo(name, k)
    ensures Split(FileName(path, directory, base, info)) == Some(Parts(|path|, |path| + 3, at))
  {
    hide LastSlash, LastInfo, IsInfo, IsCur, IsNew;
    var name := FileName(path, directory, base, info);
    FilePieces(path, directory, base + info);
    var last := LastInfo(name, |name|);
    if last.Some? && at.Some? {
      assert !(last.value < at.value) && !(at.value < last.value);
    }
  }

  lemma FileIsRenamed(path: seq<nat>, directory: string, base: seq<nat>, info: seq<nat>, at: Option<nat>,
                      letters: seq<nat>)
    requires directory in ["cur", "new"]
    requires at == if info == [] then None else Some(|path| + 4 + |base|)
    ensures var name := FileName(path, directory, base, info);
      Renamed(name, Parts(|path|, |path| + 3, at), letters) == FileName(path, "cur", base, Bytes(":2,") + letters)
  {
    var name := FileName(path, directory, base, info);
    var end := |path| + 4 + |base|;
    assert name[..|path|] == path;
    assert name[|path| + 3..end] == Bytes("/") + base;
    assert Bytes("cur") == [99, 117, 114] && Bytes(":2,") == [COLON, TWO, COMMA];
  }

  lemma InfoStands(path: seq<nat>, directory: string, base: seq<nat>, flags: seq<nat>)
    requires directory in ["cur", "new"] && forall k | 0 <= k < |flags| :: !IsInfo(flags, k)
    ensures var name := FileName(path, directory, base, Bytes(":2,") + flags);
      var at := |path| + 4 + |base|;
      && IsInfo(name, at) && (forall k | at < k < |name| :: !IsInfo(name, k)) && name[at + 3..] == flags
  {
    var name := FileName(path, directory, base, Bytes(":2,") + flags);
    var at := |path| + 4 + |base|;
    assert name[at..] == Bytes(":2,") + flags;
    assert name[at + 3..] == name[at..][3..] == flags;
    assert name[at] == name[at..][0] && name[at + 1] == name[at..][1] && name[at + 2] == name[at..][2];
    forall k | at < k < |name|
      ensures !IsInfo(name, k)
    {
      if k >= at + 3 {
        assert !IsInfo(flags, k - at - 3);
        assert forall n | k <= n < |name| :: name[n] == flags[n - at - 3];
      }
    }
  }

  /** Well-formed flags announce no others: a colon does not precede a digit in them. */
  lemma FlagsHoldNoInfo(flags: seq<nat>)
    requires AreFlags(flags)
    ensures forall k | 0 <= k < |flags| :: !IsInfo(flags, k)
  {
    forall k | 0 <= k < |flags|
      ensures !IsInfo(flags, k)
    {
      assert k + 1 < |flags| ==> flags[k] < flags[k + 1];
    }
  }

  /** A file with flags: it comes to lie in `cur` under its base name, and its
      letters say what the tags do. */
  lemma FlaggedFileFollowsTags(path: seq<nat>, directory: string, base: seq<nat>, flags: seq<nat>, tags: seq<string>)
    returns (letters: seq<nat>)
    requires directory in ["cur", "new"] && IsPath(path)
    requires '/' as nat !in base && '/' as nat !in flags && AreFlags(flags)
    ensures AreFlags(letters) && SaysTags(letters, flags, tags)
    ensures Expected(FileName(path, directory, base, Bytes(":2,") + flags), tags)
         == FileName(path, "cur", base, Bytes(":2,") + letters)
  {
    hide WithTags, AreFlags, SaysTags, Split, FileName, IsInfo, IsNew, IsCur, Renamed;
    letters := WithTags(flags, tags, 5);
    LettersSayTags(flags, tags);
    var info := Bytes(":2,") + flags;
    var at := Some(|path| + 4 + |base|);
    FlagsHoldNoInfo(flags);
    InfoStands(path, directory, base, flags);
    FileIsSplit(path, directory, base, info, at);
    FileIsRenamed(path, directory, base, info, at, letters);
    ExpectedIs(FileName(path, directory, base, info), tags, Parts(|path|, |path| + 3, at));
  }

  /** A file without flags: the same, except that one in `new` stays where it is
      as long as no letter is due. */
  lemma PlainFileFollowsTags(path: seq<nat>, directory: string, base: seq<nat>, tags: seq<string>)
    returns (letters: seq<nat>)
    requires directory in ["cur", "new"] && IsPath(path) && '/' as nat !in base
    requires forall k | 0 <= k < |base| :: !IsInfo(base, k)
    ensures AreFlags(letters) && SaysTags(letters, [], tags)
    ensures Expected(FileName(path, directory, base, []), tags)
         == FileName(path, if directory == "new" && letters == [] then "new" else "cur", base,
                     if directory == "new" && letters == [] then [] else Bytes(":2,") + letters)
  {
    hide WithTags, SaysTags, Split, FileName, IsInfo, IsNew, IsCur, Renamed;
    letters := WithTags([], tags, 5);
    LettersSayTags([], tags);
    NoInfoStands(path, directory, base);
    FileIsSplit(path, directory, base, [], None);
    FileIsRenamed(path, directory, base, [], None, letters);
    DirectoryIs(path, directory, base);
    ExpectedIs(FileName(path, directory, base, []), tags, Parts(|path|, |path| + 3, None));
  }

  lemma NoInfoStands(path: seq<nat>, directory: string, base: seq<nat>)
    requires directory in ["cur", "new"] && forall k | 0 <= k < |base| :: !IsInfo(base, k)
    ensures var name := FileName(path, directory, base, []);
      forall k | |path| + 3 < k < |name| :: !IsInfo(name, k)
  {
    var name := FileName(path, directory, base, []);
    forall k | |path| + 3 < k < |name|
      ensures !IsInfo(name, k)
    {
      var j := k - |path| - 4;
      assert !IsInfo(base, j);
      assert forall n | k <= n < |name| :: name[n] == base[n - |path| - 4];
    }
  }

  lemma DirectoryIs(path: seq<nat>, directory: string, base: seq<nat>)
    requires directory in ["cur", "new"] && IsPath(path) && '/' as nat !in base
    ensures IsNew(FileName(path, directory, base, []), |path|, |path| + 3) <==> directory == "new"
  {
    FilePieces(path, directory, base + []);
    hide IsNew;
  }

  /** A name without a directory, and one in another directory, stays as it is. */
  lemma OtherNamesStay(path: seq<nat>, directory: seq<nat>, file: seq<nat>, tags: seq<string>)
    requires IsPath(path) && '/' as nat !in directory && '/' as nat !in file
    requires directory != Bytes("cur") && directory != Bytes("new")
    ensures Expected(file, tags) == file
    ensures Expected(path + directory + Bytes("/") + file, tags) == path + directory + Bytes("/") + file
  {
    hide WithTags, AreFlags, LastInfo, Renamed;
    assert LastSlash(file, |file|).None?;
    NothingExpected(file, tags);
    var name := path + directory + Bytes("/") + file;
    var slash := |path| + |directory|;
    assert name[slash] == SLASH && forall k | slash < k < |name| :: name[k] == file[k - slash - 1];
    assert forall k | |path| <= k < slash :: name[k] == directory[k - |path|];
    NotTheDirectory(name, |path|, directory, "cur");
    NotTheDirectory(name, |path|, directory, "new");
    SplitsNowhere(name, |path|, slash);
    NothingExpected(name, tags);
  }

  lemma NotTheDirectory(name: seq<nat>, start: nat, directory: seq<nat>, other: string)
    requires start + |directory| <= |name| && name[start..start + |directory|] == directory
    requires directory != Bytes(other) && other in ["cur", "new"]
    ensures other == "cur" ==> !IsCur(name, start, start + |directory|)
    ensures other == "new" ==> !IsNew(name, start, start + |directory|)
  {
    if |directory| == 3 {
      assert directory == [name[start], name[start + 1], name[start + 2]];
      assert Bytes(other) == [other[0] as nat, other[1] as nat, other[2] as nat];
    }
  }

  lemma SplitsNowhere(name: seq<nat>, start: nat, slash: nat)
    requires start <= slash < |name| && name[slash] == SLASH && (start > 0 ==> name[start - 1] == SLASH)
    requires forall k | slash < k < |name| :: name[k] != SLASH
    requires forall k | start <= k < slash :: name[k] != SLASH
    requires !IsCur(name, start, slash) && !IsNew(name, start, slash)
    ensures Split(name).None?
  {
    hide IsCur, IsNew, LastInfo, LastSlash;
    assert LastSlash(name, |name|) == Some(slash);
    assert LastSlash(name, slash) == if start == 0 then None else Some(start - 1);
  }

  /** So does a file whose flags are not in strictly increasing order or not ASCII. */
  lemma MalformedFlagsStay(path: seq<nat>, directory: string, base: seq<nat>, flags: seq<nat>, tags: seq<string>)
    requires directory in ["cur", "new"] && IsPath(path) && '/' as nat !in base && '/' as nat !in flags
    requires forall k | 0 <= k < |flags| :: !IsInfo(flags, k)
    requires AreMalformed(flags)
    ensures var name := FileName(path, directory, base, Bytes(":2,") + flags);
      Expected(name, tags) == name
  {
    hide WithTags, Split, FileName, IsInfo, IsNew, IsCur, Renamed;
    var info := Bytes(":2,") + flags;
    var at := Some(|path| + 4 + |base|);
    InfoStands(path, directory, base, flags);
    FileIsSplit(path, directory, base, info, at);
    NotFlags(flags);
    ExpectedIs(FileName(path, directory, base, info), tags, Parts(|path|, |path| + 3, at));
  }

  /** Out of order, repeated or not ASCII. */
  predicate AreMalformed(flags: seq<nat>) {
    || (exists i, j :: 0 <= i < j < |flags| && flags[i] >= flags[j])
    || exists i :: 0 <= i < |flags| && flags[i] >= 128
  }

  lemma NotFlags(flags: seq<nat>)
    requires AreMalformed(flags)
    ensures !AreFlags(flags)
  {
    if AreFlags(flags) {
      forall i | 0 <= i < |flags|
        ensures flags[i] < 128
      {
        assert flags[i] in flags;
      }
    }
  }
}
