// Nothing else is accepted as a message identifier: whatever the validators let
// pass is the text of a syntax tree of the grammar
// (crates/notm-mail/src/rfc5322.rs).
module IdCompleteness {
  import opened MailText
  import opened IdScanners
  import opened IdGrammar
  import opened IdStripping
  import opened IdCanonical
  import opened IdPrinting
  import opened IdGaps
  import opened IdAcceptance

  // ---- Comments and gaps

  lemma CommentCharIs(c: char)
    ensures IsCommentChar(c) <==> IsBlank(c) || IsVisible(c) || IsForeign(c)
  {
  }

  lemma FrontJoins(v: string, i: nat, j: nat, k: nat)
    requires i <= j <= k <= |v|
    ensures v[i..k] == v[i..j] + v[j..k]
  {
  }

  lemma OneAt(v: string, i: nat)
    requires i < |v|
    ensures v[i..i + 1] == [v[i]]
    ensures i + 1 < |v| ==> v[i..i + 2] == [v[i], v[i + 1]]
  {
  }

  /** What a comment holds up to where it closes. */
  lemma {:induction false} CommentIsWritten(v: string, i: nat, depth: nat) returns (comment: Comment, close: nat)
    requires i <= |v| && depth > 0 && CommentEnd(v, i, depth).Some?
    ensures IsComment(comment) && i <= close < |v| && v[i..close] == CommentText(comment) && v[close] == ')'
    ensures CommentEnd(v, close + 1, depth - 1) == CommentEnd(v, i, depth)
    decreases |v| - i
  {
    hide *;
    CommentUnfolds(v, i, depth);
    CommentCharIs(v[i]);
    OneAt(v, i);
    var rest;
    if v[i] == ')' {
      comment, close := End, i;
      NothingHeld(v, i);
    } else if v[i] == '\\' {
      CommentCharIs(v[i + 1]);
      rest, close := CommentIsWritten(v, i + 2, depth);
      comment := Escaped(v[i + 1], rest);
      EscapedHeld(v[i + 1], rest);
      FrontJoins(v, i, i + 2, close);
    } else if v[i] == '(' {
      var inner, middle := CommentIsWritten(v, i + 1, depth + 1);
      rest, close := CommentIsWritten(v, middle + 1, depth);
      comment := Nested(inner, rest);
      NestedHeld(inner, rest);
      NestedJoins(v, i, middle, close, CommentText(inner), CommentText(rest));
    } else {
      rest, close := CommentIsWritten(v, i + 1, depth);
      comment := Plain(v[i], rest);
      PlainHeld(v[i], rest);
      FrontJoins(v, i, i + 1, close);
    }
  }

  lemma NothingHeld(v: string, i: nat)
    requires i <= |v|
    ensures IsComment(End) && v[i..i] == CommentText(End)
  {
  }

  lemma EscapedHeld(c: char, rest: Comment)
    requires (IsBlank(c) || IsVisible(c) || IsForeign(c)) && IsComment(rest)
    ensures IsComment(Escaped(c, rest)) && CommentText(Escaped(c, rest)) == ['\\', c] + CommentText(rest)
  {
  }

  lemma PlainHeld(c: char, rest: Comment)
    requires (IsBlank(c) || IsVisible(c) || IsForeign(c)) && c != '(' && c != ')' && c != '\\' && IsComment(rest)
    ensures IsComment(Plain(c, rest)) && CommentText(Plain(c, rest)) == [c] + CommentText(rest)
  {
  }

  lemma NestedHeld(inner: Comment, rest: Comment)
    requires IsComment(inner) && IsComment(rest)
    ensures IsComment(Nested(inner, rest))
    ensures CommentText(Nested(inner, rest)) == "(" + (CommentText(inner) + (")" + CommentText(rest)))
  {
  }

  lemma NestedJoins(v: string, i: nat, middle: nat, close: nat, inner: string, more: string)
    requires i < middle < close <= |v| && v[i] == '(' && v[middle] == ')'
    requires v[i + 1..middle] == inner && v[middle + 1..close] == more
    ensures v[i..close] == "(" + (inner + (")" + more))
  {
    FrontJoins(v, i, i + 1, close);
    FrontJoins(v, i + 1, middle, close);
    FrontJoins(v, middle, middle + 1, close);
    OneAt(v, i);
    OneAt(v, middle);
  }

  lemma {:induction false} GapIsWritten(v: string, i: nat) returns (gap: Gap)
    requires i <= |v| && CfwsEnd(v, i).Some?
    ensures IsGap(gap) && v[i..CfwsEnd(v, i).value] == GapText(gap)
    decreases |v| - i
  {
    hide CfwsEnd, CommentText, IsComment;
    CfwsUnfolds(v, i);
    var end := CfwsEnd(v, i).value;
    gap := NoGap;
    if i < |v| {
      OneAt(v, i);
      if IsWsp(v[i]) {
        var more := GapIsWritten(v, i + 1);
        gap := Blank(v[i], more);
        FrontJoins(v, i, i + 1, end);
      } else if v[i] == '(' {
        var comment, close := CommentIsWritten(v, i + 1, 1);
        CommentUnfolds(v, close + 1, 0);
        var more := GapIsWritten(v, close + 1);
        gap := Remark(comment, more);
        NestedJoins(v, i, close, end, CommentText(comment), GapText(more));
      }
    }
  }

  // ---- Words

  lemma QuotedCharIs(c: char)
    ensures IsQuotedPairChar(c) <==> IsBlank(c) || IsVisible(c)
  {
  }

  lemma QuotedStep(s: string)
    requires QuotedLength(s, false) != 0
    ensures s != ""
    ensures s[0] == '"' ==> QuotedLength(s, false) == 1
    ensures s[0] == '\\' ==>
      && |s| > 1 && IsQuotedPairChar(s[1]) && QuotedLength(s[2..], false) != 0
      && QuotedLength(s, false) == 2 + QuotedLength(s[2..], false)
    ensures s[0] != '"' && s[0] != '\\' ==>
      && IsQuotedPairChar(s[0]) && QuotedLength(s[1..], false) != 0
      && QuotedLength(s, false) == 1 + QuotedLength(s[1..], false)
  {
    hide IsQuotedPairChar;
    if s[0] == '\\' {
      assert s[1..][0] == s[1] && s[1..][1..] == s[2..];
    }
  }

  lemma {:induction false} QuotedIsWritten(s: string) returns (content: Content)
    requires QuotedLength(s, false) != 0
    ensures IsQuotable(content) && s[..QuotedLength(s, false)] == ContentText(content) + "\""
    decreases |s|
  {
    hide QuotedLength, IsQuotedPairChar, IsBlank, IsVisible;
    QuotedStep(s);
    var n := QuotedLength(s, false);
    QuotedCharIs(s[0]);
    if s[0] == '"' {
      content := Done;
      assert s[..1] == "\"";
    } else if s[0] == '\\' {
      QuotedCharIs(s[1]);
      var more := QuotedIsWritten(s[2..]);
      content := Pair(s[1], more);
      assert s[..n] == ['\\', s[1]] + s[2..][..n - 2];
    } else {
      var more := QuotedIsWritten(s[1..]);
      content := Char(s[0], more);
      assert s[..n] == [s[0]] + s[1..][..n - 1];
    }
  }

  lemma RunIsWritten(s: string)
    requires AtomLength(s) != 0
    ensures IsRun(s[..AtomLength(s)])
  {
    AtomIsMaximal(s);
    var run := s[..AtomLength(s)];
    forall k | 0 <= k < |run|
      ensures IsIdChar(run[k])
    {
      AtextIsListed(s[k]);
    }
    hide IsAtext, IsIdChar;
  }

  lemma WordIsWritten(s: string) returns (word: Word)
    requires WordLength(s) != 0
    ensures IsWord(word) && s[..WordLength(s)] == WordText(word)
  {
    if s[0] == '"' {
      var content := QuotedIsWritten(s[1..]);
      word := Quoted(content);
      assert s[..WordLength(s)] == "\"" + s[1..][..WordLength(s) - 1];
    } else {
      RunIsWritten(s);
      word := Run(s[..AtomLength(s)]);
    }
    hide QuotedLength, AtomLength, IsRun, IsQuotable, ContentText;
  }

  lemma DressedJoins(v: string, i: nat, start: nat, end: nat, after: nat, d: Dressed)
    requires i <= start <= end <= after <= |v| && v[i..start] == GapText(d.before)
    requires v[start..end] == WordText(d.word) && v[end..after] == GapText(d.after)
    ensures v[i..after] == DressedText(d)
  {
    hide GapText, WordText;
    FrontJoins(v, i, start, after);
    FrontJoins(v, start, end, after);
  }

  lemma DressedIsWritten(v: string, i: nat) returns (d: Dressed)
    requires i <= |v| && ObsWordEnd(v, i).Some?
    ensures IsDressed(d) && v[i..ObsWordEnd(v, i).value] == DressedText(d)
  {
    hide *;
    var start, length := ObsWordUnfolds(v, i);
    var before := GapIsWritten(v, i);
    var word := WordIsWritten(v[start..]);
    var after := GapIsWritten(v, start + length);
    d := Dressed(before, word, after);
    GoesOn(v, i);
    GoesOn(v, start + length);
    SliceOfTail(v, start, length);
    DressedJoins(v, i, start, start + length, ObsWordEnd(v, i).value, d);
    DressedOf(before, word, after);
  }

  lemma GoesOn(v: string, i: nat)
    requires i <= |v| && CfwsEnd(v, i).Some?
    ensures i <= CfwsEnd(v, i).value <= |v|
  {
  }

  lemma SliceOfTail(v: string, i: nat, n: nat)
    requires i + n <= |v|
    ensures v[i..][..n] == v[i..i + n]
  {
  }

  lemma DressedOf(before: Gap, word: Word, after: Gap)
    requires IsGap(before) && IsWord(word) && IsGap(after)
    ensures IsDressed(Dressed(before, word, after))
  {
  }

  lemma AtomIsWritten(v: string, i: nat) returns (d: Dressed)
    requires i <= |v| && ObsAtomEnd(v, i).Some?
    ensures IsDressed(d) && d.word.Run? && v[i..ObsAtomEnd(v, i).value] == DressedText(d)
  {
    hide *;
    var start, length := ObsAtomUnfolds(v, i);
    var before := GapIsWritten(v, i);
    RunIsWritten(v[start..]);
    var word := Run(v[start..][..length]);
    RunOf(v[start..][..length]);
    var after := GapIsWritten(v, start + length);
    d := Dressed(before, word, after);
    GoesOn(v, i);
    GoesOn(v, start + length);
    SliceOfTail(v, start, length);
    DressedJoins(v, i, start, start + length, ObsAtomEnd(v, i).value, d);
    DressedOf(before, word, after);
  }

  lemma RunOf(text: string)
    requires IsRun(text)
    ensures IsWord(Run(text)) && WordText(Run(text)) == text
  {
    hide IsRun;
  }

  // ---- Words joined by dots

  lemma DottedOne(d: Dressed)
    requires IsDressed(d)
    ensures AreDressed([d]) && Dotted([d]) == DressedText(d)
  {
    hide IsDressed, DressedText;
  }

  lemma DottedMore(d: Dressed, words: seq<Dressed>)
    requires IsDressed(d) && AreDressed(words)
    ensures AreDressed([d] + words) && Dotted([d] + words) == DressedText(d) + ("." + Dotted(words))
  {
    hide IsDressed, DressedText;
    assert ([d] + words)[1..] == words;
  }

  lemma DottedJoins(v: string, i: nat, end: nat, first: string, more: string)
    requires i <= end < |v| && v[end] == '.' && v[i..end] == first && v[end + 1..] == more
    ensures v[i..] == first + ("." + more)
  {
    FrontJoins(v, i, end, |v|);
    FrontJoins(v, end, end + 1, |v|);
    OneAt(v, end);
    assert v[i..] == v[i..|v|];
  }

  lemma {:induction false} LeftIsWritten(v: string, i: nat) returns (words: seq<Dressed>)
    requires i <= |v| && ValidLeftWithCfws(v, i)
    ensures AreDressed(words) && v[i..] == Dotted(words)
    decreases |v| - i
  {
    hide *;
    LeftWithCfwsUnfolds(v, i);
    var d := DressedIsWritten(v, i);
    var end := ObsWordEnd(v, i).value;
    DottedOne(d);
    words := [d];
    WordGoesOn(v, i);
    if end < |v| {
      var more := LeftIsWritten(v, end + 1);
      AreDressedCons(more);
      DottedMore(d, more);
      DottedJoins(v, i, end, DressedText(d), Dotted(more));
      words := [d] + more;
    } else {
      assert v[i..end] == v[i..];
    }
  }

  lemma WordGoesOn(v: string, i: nat)
    requires i <= |v|
    ensures ObsWordEnd(v, i).Some? ==> i < ObsWordEnd(v, i).value <= |v|
    ensures ObsAtomEnd(v, i).Some? ==> i < ObsAtomEnd(v, i).value <= |v|
  {
  }

  lemma {:induction false} DomainIsWritten(v: string, i: nat) returns (words: seq<Dressed>)
    requires i <= |v| && ValidDomainWithCfws(v, i)
    ensures AreDressed(words) && AreRuns(words) && v[i..] == Dotted(words)
    decreases |v| - i
  {
    hide *;
    DomainUnfolds(v, i);
    var d := AtomIsWritten(v, i);
    var end := ObsAtomEnd(v, i).value;
    DottedOne(d);
    RunsCons(d, []);
    words := [d];
    WordGoesOn(v, i);
    if end < |v| {
      var more := DomainIsWritten(v, end + 1);
      AreDressedCons(more);
      DottedMore(d, more);
      RunsCons(d, more);
      DottedJoins(v, i, end, DressedText(d), Dotted(more));
      words := [d] + more;
    } else {
      assert v[i..end] == v[i..];
    }
  }

  lemma RunsCons(d: Dressed, words: seq<Dressed>)
    requires d.word.Run?
    ensures AreRuns(words) ==> AreRuns([d] + words)
    ensures AreRuns([d])
  {
  }

  // ---- The right half

  lemma LiteralCharIs(c: char)
    ensures IsLiteralText(c) <==> IsVisible(c) && c != '[' && c != ']' && c != '\\'
  {
  }

  lemma {:induction false} LiteralIsWritten(v: string, i: nat, hasContent: bool) returns (content: Content, after: Gap)
    requires i <= |v| && ValidLiteralWithCfws(v, i, hasContent)
    ensures IsLiteral(content) && IsGap(after) && v[i..] == ContentText(content) + ("]" + GapText(after))
    ensures hasContent || Unspaced(content) != Done
    decreases |v| - i
  {
    hide GapText, IsGap, CfwsEnd;
    LiteralCharIs(v[i]);
    OneAt(v, i);
    FrontJoins(v, i, i + 1, |v|);
    assert v[i..] == v[i..|v|] && v[i + 1..] == v[i + 1..|v|];
    if v[i] == ']' {
      content := Done;
      after := GapIsWritten(v, i + 1);
      assert "" + ("]" + GapText(after)) == "]" + GapText(after);
    } else if IsWsp(v[i]) {
      var more;
      more, after := LiteralIsWritten(v, i + 1, hasContent);
      content := Char(v[i], more);
    } else if v[i] == '\\' {
      QuotedCharIs(v[i + 1]);
      FrontJoins(v, i, i + 2, |v|);
      var more;
      more, after := LiteralIsWritten(v, i + 2, true);
      content := Pair(v[i + 1], more);
      assert v[i + 2..] == v[i + 2..|v|];
    } else {
      var more;
      more, after := LiteralIsWritten(v, i + 1, true);
      content := Char(v[i], more);
    }
  }

  lemma RightIsWritten(v: string) returns (right: Right)
    requires ValidRightWithCfws(v)
    ensures IsRight(right) && RightText(right) == v
  {
    hide ValidRightWithCfws, ValidLiteralWithCfws, ValidDomainWithCfws, CfwsEnd, GapText, IsGap, ContentText, IsLiteral,
         Unspaced, Dotted, AreDressed, IsDressed;
    RightUnfolds(v);
    assert v[0..] == v;
    var start := CfwsEnd(v, 0).value;
    if start < |v| && v[start] == '[' {
      var before := GapIsWritten(v, 0);
      var content, after := LiteralIsWritten(v, start + 1, false);
      right := Literal(before, content, after);
      LiteralJoins(v, start, GapText(before), ContentText(content) + ("]" + GapText(after)));
    } else {
      var atoms := DomainIsWritten(v, 0);
      right := Domain(atoms);
    }
  }

  lemma LiteralJoins(v: string, start: nat, before: string, more: string)
    requires start < |v| && v[0..start] == before && v[start] == '[' && v[start + 1..] == more
    ensures v == before + ("[" + more)
  {
    FrontJoins(v, 0, start, |v|);
    FrontJoins(v, start, start + 1, |v|);
    OneAt(v, start);
    assert v == v[0..|v|];
  }

  // ---- Identifiers

  /** In threading headers exactly the texts of the grammar are accepted, each with
      its words as canonical form. */
  lemma AcceptedIdIsWritten(value: string) returns (id: Id)
    requires Canonical(value, true).Some?
    ensures IsId(id) && IdText(id) == value && Canonical(value, true) == Some(BareId(id))
  {
    hide ValidLeftWithCfws, ValidRightWithCfws, Canonical, Dotted, RightText, AreDressed, IsRight, BareId;
    ObsoleteChecksSuffice(value);
    var source := value[1..|value| - 1];
    var at := Separator(source).value;
    var left, right := source[..at], source[at + 1..];
    assert left[0..] == left;
    var words := LeftIsWritten(left, 0);
    var rest := RightIsWritten(right);
    id := Id(words, rest);
    assert source == left + "@" + right;
    assert value == "<" + source + ">";
    WrittenIdIsAccepted(id);
  }

  lemma AcceptanceIsExact(value: string, core: string)
    ensures Canonical(value, true) == Some(core) <==>
      exists id :: IsId(id) && IdText(id) == value && BareId(id) == core
  {
    hide *;
    if Canonical(value, true) == Some(core) {
      var id := AcceptedIdIsWritten(value);
    }
    if id :| IsId(id) && IdText(id) == value && BareId(id) == core {
      WrittenIdIsAccepted(id);
    }
  }

  // ---- The current syntax

  lemma BareOne(run: string)
    requires IsRun(run)
    ensures var d := Dressed(NoGap, Run(run), NoGap);
      IsDressed(d) && AreBare([d]) && DressedText(d) == run
  {
    hide IsRun;
  }

  lemma BareMore(d: Dressed, words: seq<Dressed>)
    requires AreBare([d]) && AreBare(words)
    ensures AreBare([d] + words)
  {
    assert [d][0] == d;
  }

  lemma {:induction false} DotAtomIsWritten(s: string) returns (words: seq<Dressed>)
    requires ValidDotAtom(s)
    ensures AreDressed(words) && AreBare(words) && Dotted(words) == s
    decreases |s|
  {
    hide *;
    DotAtomSplits(s);
    var n := AtomLength(s);
    RunIsWritten(s);
    var d := Dressed(NoGap, Run(s[..n]), NoGap);
    BareOne(s[..n]);
    DottedOne(d);
    words := [d];
    if n < |s| {
      var more := DotAtomIsWritten(s[n + 1..]);
      AreDressedCons(more);
      DottedMore(d, more);
      BareMore(d, more);
      words := [d] + more;
      assert s == s[..n] + ("." + s[n + 1..]);
    } else {
      assert s[..n] == s;
    }
  }

  lemma {:induction false} ContentIsWritten(s: string) returns (content: Content)
    requires ValidLiteralContent(s)
    ensures IsLiteral(content) && Unspaced(content) == content && ContentText(content) == s
    decreases |s|
  {
    if s == "" {
      content := Done;
    } else if s[0] == '\\' {
      QuotedCharIs(s[1]);
      var more := ContentIsWritten(s[2..]);
      content := Pair(s[1], more);
      assert ['\\', s[1]] + s[2..] == s;
    } else {
      LiteralCharIs(s[0]);
      var more := ContentIsWritten(s[1..]);
      content := Char(s[0], more);
      assert [s[0]] + s[1..] == s;
    }
  }

  lemma CurrentRightIsWritten(s: string) returns (right: Right)
    requires ValidIdRight(s)
    ensures IsRight(right) && IsCurrent(Id([], right)) && RightText(right) == s
  {
    hide ValidDotAtom, ValidLiteralContent, Dotted, IsDressed, ContentText, Unspaced, IsLiteral;
    if s != "" && s[0] == '[' {
      var inside := s[1..|s| - 1];
      var content := ContentIsWritten(inside);
      right := Literal(NoGap, content, NoGap);
      NoGapIsNothing();
      assert "" + ("[" + (inside + ("]" + ""))) == s;
      assert content == Done ==> ContentText(Done) == inside;
      DoneIsNothing();
    } else {
      var atoms := DotAtomIsWritten(s);
      right := Domain(atoms);
    }
  }

  lemma NoGapIsNothing()
    ensures IsGap(NoGap) && GapText(NoGap) == ""
  {
  }

  lemma DoneIsNothing()
    ensures ContentText(Done) == ""
  {
  }

  /** As a Message-ID exactly the texts of the current syntax are accepted, unchanged. */
  lemma StrictAcceptanceIsExact(value: string, core: string)
    ensures Canonical(value, false) == Some(core) <==>
      core == value && exists id :: IsId(id) && IsCurrent(id) && IdText(id) == value
  {
    hide Canonical, ValidDotAtom, ValidIdRight, Dotted, RightText, IsRight, IsDressed, IsCanonicalId;
    if Canonical(value, false) == Some(core) {
      StrictIsObsolete(value);
      var source, at := StrictSource(value);
      var left := DotAtomIsWritten(source[..at]);
      var right := CurrentRightIsWritten(source[at + 1..]);
      assert source == source[..at] + "@" + source[at + 1..];
      var id := Id(left, right);
      assert IsId(id) && IsCurrent(id) && IdText(id) == value;
    }
    if id :| IsId(id) && IsCurrent(id) && IdText(id) == value {
      CurrentIdIsAccepted(id, false);
    }
  }
}
