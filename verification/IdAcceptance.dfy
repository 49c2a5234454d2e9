// What is accepted as a message identifier: every identifier that the grammar
// writes, whatever comments and blanks are in it, is reduced to its words
// (crates/notm-mail/src/rfc5322.rs).
module IdAcceptance {
  import opened MailText
  import opened IdScanners
  import opened IdGrammar
  import opened IdStripping
  import opened IdCanonical
  import opened IdPrinting
  import opened IdGaps

  // ---- Words

  lemma {:induction false} QuotedIsWhole(content: Content)
    requires IsQuotable(content)
    ensures QuotedLength(ContentText(content) + "\"", false) == |ContentText(content)| + 1
    decreases content
  {
    var s := ContentText(content) + "\"";
    match content {
      case Done =>
      case Char(c, more) =>
        QuotedIsWhole(more);
        assert s[1..] == ContentText(more) + "\"";
      case Pair(c, more) =>
        QuotedIsWhole(more);
        assert s[1..][1..] == ContentText(more) + "\"";
        assert s[1..][0] == c;
    }
  }

  lemma WordIsWhole(word: Word)
    requires IsWord(word)
    ensures WordLength(WordText(word)) == |WordText(word)| != 0
  {
    var s := WordText(word);
    match word {
      case Run(text) =>
        RunIsAtom(text);
        AtomIsWhole(text);
        AtextIsOrdinary(s[0]);
      case Quoted(content) =>
        QuotedIsWhole(content);
        assert s[1..] == ContentText(content) + "\"";
    }
    hide QuotedLength, AtomLength, ContentText, IsAtext, IsIdChar;
  }

  /** Neither part of an atom nor of a gap: what may follow a dressed word. */
  predicate StopsWord(rest: string) {
    StartsWord(rest) && (rest == "" || !IsIdChar(rest[0]))
  }

  lemma WordStops(word: Word, gap: Gap, rest: string)
    requires IsWord(word) && IsGap(gap) && StopsWord(rest)
    ensures WordLength(WordText(word) + (GapText(gap) + rest)) == |WordText(word)|
    ensures word.Run? ==> AtomLength(WordText(word) + (GapText(gap) + rest)) == |WordText(word)|
  {
    hide *;
    GapStops(gap, rest);
    if word.Run? {
      RunStops(word, GapText(gap) + rest);
    } else {
      QuotedStops(word, GapText(gap) + rest);
    }
  }

  lemma GapStops(gap: Gap, rest: string)
    requires IsGap(gap) && StopsWord(rest)
    ensures GapText(gap) + rest == "" || !IsAtext((GapText(gap) + rest)[0])
  {
    hide GapText, CommentText, IsComment;
    GapTextUnfolds(gap);
  }

  lemma RunStops(word: Word, tail: string)
    requires IsWord(word) && word.Run? && (tail == "" || !IsAtext(tail[0]))
    ensures AtomLength(WordText(word) + tail) == |WordText(word)|
    ensures WordLength(WordText(word) + tail) == |WordText(word)|
  {
    var s := word.text;
    RunIsAtom(s);
    AtomIsWhole(s);
    AtextIsOrdinary(s[0]);
    assert s[..|s|] == s && (s + tail)[0] == s[0];
    AtomEndsAlike(s, |s|, tail);
    hide AtomLength, IsAtext, IsRun;
  }

  lemma QuotedStops(word: Word, tail: string)
    requires IsWord(word) && word.Quoted?
    ensures WordLength(WordText(word) + tail) == |WordText(word)|
  {
    var inside := ContentText(word.content) + "\"";
    QuotedIsWhole(word.content);
    QuotedEndsAlike(inside, false, tail);
    assert inside[..|inside|] == inside;
    assert (WordText(word) + tail)[1..] == inside + tail;
    hide QuotedLength, ContentText, IsQuotable;
  }

  lemma WordStarts(word: Word, more: string)
    requires IsWord(word)
    ensures StartsWord(WordText(word) + more)
  {
    if word.Run? {
      RunIsAtom(word.text);
      AtextIsOrdinary(word.text[0]);
    }
    hide IsAtext, IsIdChar;
  }

  lemma DressedParts(d: Dressed, rest: string)
    ensures DressedText(d) + rest == GapText(d.before) + (WordText(d.word) + (GapText(d.after) + rest))
    ensures |DressedText(d)| == |GapText(d.before)| + |WordText(d.word)| + |GapText(d.after)|
  {
    hide GapText, WordText;
  }

  lemma ObsEnds(v: string, i: nat, start: nat, n: nat)
    requires i <= |v| && CfwsEnd(v, i) == Some(start) && start + n <= |v| && n > 0
    ensures WordLength(v[start..]) == n ==> ObsWordEnd(v, i) == CfwsEnd(v, start + n)
    ensures AtomLength(v[start..]) == n ==> ObsAtomEnd(v, i) == CfwsEnd(v, start + n)
  {
    hide CfwsEnd, WordLength, AtomLength;
  }

  /** A dressed word is scanned to its end, as a word and, if it is one, as an atom. */
  lemma DressedIsScanned(v: string, i: nat, d: Dressed, rest: string)
    requires i <= |v| && v[i..] == DressedText(d) + rest && IsDressed(d) && StopsWord(rest)
    ensures i + |DressedText(d)| <= |v| && v[i + |DressedText(d)|..] == rest
    ensures ObsWordEnd(v, i) == Some(i + |DressedText(d)|)
    ensures d.word.Run? ==> ObsAtomEnd(v, i) == Some(i + |DressedText(d)|)
  {
    hide *;
    var tail := GapText(d.after) + rest;
    DressedIs(d);
    StopsIs(rest);
    DressedParts(d, rest);
    WordStarts(d.word, tail);
    WordStops(d.word, d.after, rest);
    WordIsWhole(d.word);
    GapEnds(v, i, d.before, WordText(d.word) + tail);
    var start := i + |GapText(d.before)|;
    PieceAt(v, start, WordText(d.word), tail);
    var end := start + |WordText(d.word)|;
    GapEnds(v, end, d.after, rest);
    ObsEnds(v, i, start, |WordText(d.word)|);
  }

  lemma DressedIs(d: Dressed)
    requires IsDressed(d)
    ensures IsGap(d.before) && IsWord(d.word) && IsGap(d.after)
  {
  }

  lemma StopsIs(rest: string)
    requires StopsWord(rest)
    ensures StartsWord(rest)
  {
  }

  lemma DressedStrips(d: Dressed, out: string, rest: string)
    requires IsDressed(d) && StopsWord(rest)
    ensures StripRun(Bare(out), DressedText(d) + rest) == StripRun(Bare(out + WordText(d.word)), rest)
  {
    hide *;
    var tail := GapText(d.after) + rest;
    DressedIs(d);
    DressedParts(d, rest);
    WordStops(d.word, d.after, rest);
    WordIsWhole(d.word);
    var s := WordText(d.word) + tail;
    var n := |WordText(d.word)|;
    GapStrips(d.before, out, s);
    WordIsKept(s, out);
    assert s[..n] == WordText(d.word) && s[n..] == tail;
    GapStrips(d.after, out + WordText(d.word), rest);
  }

  lemma DressedIsInert(d: Dressed)
    requires IsDressed(d)
    ensures Inert(DressedText(d))
  {
    hide *;
    DressedParts(d, "");
    DressedIs(d);
    WordIsWhole(d.word);
    WordIsInert(WordText(d.word));
    GapIsInert(d.before);
    GapIsInert(d.after);
    InertConcat(WordText(d.word), GapText(d.after));
    InertConcat(GapText(d.before), WordText(d.word) + GapText(d.after));
    NothingAfter(DressedText(d));
    NothingAfter(GapText(d.after));
  }

  lemma NothingAfter(s: string)
    ensures s + "" == s
  {
  }

  // ---- Words joined by dots

  lemma DottedUnfolds(words: seq<Dressed>, rest: string)
    requires words != []
    ensures |words| == 1 ==> Dotted(words) == DressedText(words[0])
    ensures |words| > 1 ==> Dotted(words) == DressedText(words[0]) + ("." + Dotted(words[1..]))
    ensures |words| > 1 ==> Dotted(words) + rest == DressedText(words[0]) + ("." + (Dotted(words[1..]) + rest))
  {
    hide DressedText;
    if |words| > 1 {
      Regroup(DressedText(words[0]), ".", Dotted(words[1..]), rest);
    }
  }

  lemma AreDressedCons(words: seq<Dressed>)
    requires AreDressed(words)
    ensures words != [] && IsDressed(words[0])
    ensures |words| > 1 ==> AreDressed(words[1..])
  {
    hide IsDressed;
  }

  lemma DotStops(rest: string)
    ensures StopsWord("." + rest) && StopsWord("") && StopsWord("@" + rest)
  {
  }

  predicate AreRuns(words: seq<Dressed>) {
    forall k | 0 <= k < |words| :: words[k].word.Run?
  }

  lemma DotAt(v: string, i: nat, rest: string)
    requires i <= |v| && v[i..] == "." + rest
    ensures i < |v| && v[i] == '.' && v[i + 1..] == rest
  {
    assert v[i] == v[i..][0];
    assert v[i + 1..] == v[i..][1..];
  }

  /** Dressed words between dots are an id-left, and a domain if they are atoms. */
  lemma {:induction false} DottedIsValid(v: string, i: nat, words: seq<Dressed>)
    requires i <= |v| && AreDressed(words) && v[i..] == Dotted(words)
    ensures ValidLeftWithCfws(v, i)
    ensures AreRuns(words) ==> ValidDomainWithCfws(v, i)
    decreases |words|
  {
    hide Dotted, AreDressed, DressedText, ValidLeftWithCfws, ValidDomainWithCfws, ObsWordEnd, ObsAtomEnd, StopsWord,
         IsDressed;
    AreDressedCons(words);
    DottedUnfolds(words, "");
    var end := i + |DressedText(words[0])|;
    var more := if |words| == 1 then "" else Dotted(words[1..]);
    DotStops(more);
    if |words| == 1 {
      NothingAfter(DressedText(words[0]));
      DressedIsScanned(v, i, words[0], "");
      assert |v[end..]| == 0;
    } else {
      DressedIsScanned(v, i, words[0], "." + more);
      DotAt(v, end, more);
      DottedIsSome(words[1..]);
      DottedIsValid(v, end + 1, words[1..]);
    }
    LeftWithCfwsUnfolds(v, i);
    DomainUnfolds(v, i);
  }

  lemma DottedIsSome(words: seq<Dressed>)
    requires AreDressed(words)
    ensures Dotted(words) != ""
  {
    AreDressedCons(words);
    WordIsWhole(words[0].word);
    DressedParts(words[0], "");
    hide DressedText, WordText, GapText, AreDressed;
  }

  lemma {:induction false} DottedStrips(words: seq<Dressed>, out: string, rest: string)
    requires AreDressed(words) && StopsWord(rest)
    ensures StripRun(Bare(out), Dotted(words) + rest) == StripRun(Bare(out + BareText(words)), rest)
    decreases |words|
  {
    hide Dotted, AreDressed, DressedText, StopsWord, StripRun, WordText, IsDressed;
    AreDressedCons(words);
    DottedUnfolds(words, rest);
    if |words| == 1 {
      DressedStrips(words[0], out, rest);
    } else {
      var more := Dotted(words[1..]) + rest;
      var first := WordText(words[0].word);
      DotStops(more);
      DressedStrips(words[0], out, "." + more);
      DotStrips(out + first, more);
      DottedStrips(words[1..], out + first + ".", rest);
      assert out + first + "." + BareText(words[1..]) == out + (first + ("." + BareText(words[1..])));
    }
  }

  lemma DotStrips(out: string, rest: string)
    ensures StripRun(Bare(out), "." + rest) == StripRun(Bare(out + "."), rest)
  {
    StripRunConcat(Bare(out), ".", rest);
    StripsOne(Bare(out), '.');
  }

  lemma {:induction false} DottedIsInert(words: seq<Dressed>)
    requires AreDressed(words)
    ensures Inert(Dotted(words))
    decreases |words|
  {
    hide *;
    AreDressedCons(words);
    DottedUnfolds(words, "");
    DressedIsInert(words[0]);
    if |words| > 1 {
      DottedIsInert(words[1..]);
      PlainTextIsInert(".");
      InertConcat(".", Dotted(words[1..]));
      InertConcat(DressedText(words[0]), "." + Dotted(words[1..]));
    }
  }

  /** The bare words are a canonical id-left, and a domain if they are atoms. */
  lemma {:induction false} BareIsValid(words: seq<Dressed>)
    requires AreDressed(words)
    ensures ValidObsIdLeft(BareText(words))
    ensures AreRuns(words) ==> IsDomain(BareText(words))
    decreases |words|
  {
    hide WordText, ValidObsIdLeft, IsDomain, IsDressed, WordLength, IsAtom;
    AreDressedCons(words);
    DressedIs(words[0]);
    var first := WordText(words[0].word);
    WordIsWhole(words[0].word);
    if AreRuns(words) {
      RunIsText(words[0].word);
    }
    if |words| == 1 {
      WordIsLeft(first);
      if AreRuns(words) {
        AtomIsDomain(first);
      }
    } else {
      BareIsValid(words[1..]);
      LeftJoin(first, BareText(words[1..]));
      assert first + "." + BareText(words[1..]) == first + ("." + BareText(words[1..]));
      if AreRuns(words) {
        DomainJoin(first, BareText(words[1..]));
      }
    }
  }

  lemma RunIsText(word: Word)
    requires IsWord(word) && word.Run?
    ensures IsAtom(WordText(word))
  {
    RunIsAtom(word.text);
    hide IsAtom;
  }

  // ---- Domain literals

  lemma {:induction false} LiteralIsScanned(v: string, i: nat, content: Content, hasContent: bool, after: Gap)
    requires i <= |v| && v[i..] == ContentText(content) + ("]" + GapText(after))
    requires IsLiteral(content) && IsGap(after) && (hasContent || Unspaced(content) != Done)
    ensures ValidLiteralWithCfws(v, i, hasContent)
    decreases content
  {
    hide GapText, IsGap, CfwsEnd;
    var rest := "]" + GapText(after);
    match content {
      case Done =>
        assert "" + rest == rest;
        assert v[i] == v[i..][0];
        assert v[i + 1..] == v[i..][1..] == GapText(after);
        NothingAfter(GapText(after));
        GapEnds(v, i + 1, after, "");
        assert |v| == i + 1 + |GapText(after)|;
      case Char(c, more) =>
        FrontIs(v, i, [c], ContentText(more), rest);
        LiteralIsScanned(v, i + 1, more, hasContent || !IsBlank(c), after);
      case Pair(c, more) =>
        FrontIs(v, i, ['\\', c], ContentText(more), rest);
        LiteralIsScanned(v, i + 2, more, true, after);
    }
  }

  lemma {:induction false} LiteralStripsTo(content: Content, out: string, rest: string)
    requires IsLiteral(content)
    ensures StripRun(Live(false, true, false, 0, out), ContentText(content) + ("]" + rest))
         == StripRun(Bare(out + (ContentText(Unspaced(content)) + "]")), rest)
    decreases content
  {
    hide StripRun, StripStep;
    var s := Live(false, true, false, 0, out);
    match content {
      case Done =>
        assert "" + ("]" + rest) == "]" + rest;
        assert out + ("" + "]") == out + "]";
        StripRunConcat(s, "]", rest);
        LiteralStep(out, ']');
      case Char(c, more) =>
        StripsFront(s, [c], ContentText(more), "]" + rest);
        LiteralStep(out, c);
        var out' := if IsBlank(c) then out else out + [c];
        LiteralStripsTo(more, out', rest);
        assert out + [c] + (ContentText(Unspaced(more)) + "]") == out + ([c] + ContentText(Unspaced(more)) + "]");
      case Pair(c, more) =>
        StripsFront(s, ['\\', c], ContentText(more), "]" + rest);
        LiteralPair(out, c);
        LiteralStripsTo(more, out + ['\\', c], rest);
        assert out + ['\\', c] + (ContentText(Unspaced(more)) + "]")
            == out + (['\\', c] + ContentText(Unspaced(more)) + "]");
    }
  }

  lemma LiteralStep(out: string, c: char)
    ensures var s := Live(false, true, false, 0, out);
      && (c == ']' ==> StripRun(s, [c]) == Bare(out + "]"))
      && (IsBlank(c) ==> StripRun(s, [c]) == s)
      && (IsVisible(c) && c != '[' && c != ']' && c != '\\' ==>
          StripRun(s, [c]) == Live(false, true, false, 0, out + [c]))
  {
    StripsOne(Live(false, true, false, 0, out), c);
  }

  lemma LiteralPair(out: string, c: char)
    ensures StripRun(Live(false, true, false, 0, out), ['\\', c]) == Live(false, true, false, 0, out + ['\\', c])
  {
    StripsTwo(Live(false, true, false, 0, out), '\\', c);
    assert out + ['\\'] + [c] == out + ['\\', c];
  }

  /** In a literal the automaton stays in it. */
  ghost predicate StaysLiteral(text: string) {
    && LexRun(Lex(false, true, false, 0), text) == Lex(false, true, false, 0)
    && forall k | 0 <= k <= |text| :: LexRun(Lex(false, true, false, 0), text[..k]).literal
  }

  lemma LiteralConcat(a: string, b: string)
    requires StaysLiteral(a) && StaysLiteral(b)
    ensures StaysLiteral(a + b)
  {
    var s := Lex(false, true, false, 0);
    hide LexRun;
    LexRunConcat(s, a, b);
    forall k | 0 <= k <= |a + b|
      ensures LexRun(s, (a + b)[..k]).literal
    {
      if k <= |a| {
        assert (a + b)[..k] == a[..k];
      } else {
        assert (a + b)[..k] == a + b[..k - |a|];
        LexRunConcat(s, a, b[..k - |a|]);
      }
    }
  }

  lemma CharStaysLiteral(c: char)
    requires c != ']' && c != '\\'
    ensures StaysLiteral([c])
  {
    LexOne(Lex(false, true, false, 0), c);
    assert [c][..0] == "" && [c][..1] == [c];
  }

  lemma PairStaysLiteral(c: char)
    ensures StaysLiteral(['\\', c])
  {
    LexOne(Lex(false, true, false, 0), '\\');
    LexTwo(Lex(false, true, false, 0), '\\', c);
    var text := ['\\', c];
    assert text[..0] == "" && text[..1] == ['\\'] && text[..2] == text;
  }

  lemma {:induction false} ContentStaysLiteral(content: Content)
    requires IsLiteral(content)
    ensures StaysLiteral(ContentText(content))
    decreases content
  {
    hide StaysLiteral;
    match content {
      case Done =>
        NothingStaysLiteral();
      case Char(c, more) =>
        CharStaysLiteral(c);
        ContentStaysLiteral(more);
        LiteralConcat([c], ContentText(more));
      case Pair(c, more) =>
        PairStaysLiteral(c);
        ContentStaysLiteral(more);
        LiteralConcat(['\\', c], ContentText(more));
    }
  }

  lemma NothingStaysLiteral()
    ensures StaysLiteral("")
  {
    assert ""[..0] == "";
  }

  lemma LiteralIsInert(inside: string)
    requires StaysLiteral(inside)
    ensures Inert("[" + (inside + "]"))
  {
    hide LexRun;
    var s := Lex(false, true, false, 0);
    var text := "[" + (inside + "]");
    LexOne(PLAIN, '[');
    LexOne(s, ']');
    assert text == "[" + inside + "]";
    LexRunConcat(PLAIN, "[", inside);
    LexRunConcat(PLAIN, "[" + inside, "]");
    forall k | 0 < k < |text|
      ensures LexRun(PLAIN, text[..k]) != PLAIN
    {
      assert text[..k] == "[" + inside[..k - 1];
      LexRunConcat(PLAIN, "[", inside[..k - 1]);
    }
    EnclosedIsInert(text);
  }

  lemma {:induction false} UnspacedIsValid(content: Content)
    requires IsLiteral(content)
    ensures ValidLiteralContent(ContentText(Unspaced(content)))
    ensures Unspaced(content) != Done ==> ContentText(Unspaced(content)) != ""
    decreases content
  {
    match content {
      case Done =>
      case Char(c, more) =>
        UnspacedIsValid(more);
        var s := [c] + ContentText(Unspaced(more));
        assert s[1..] == ContentText(Unspaced(more));
      case Pair(c, more) =>
        UnspacedIsValid(more);
        var s := ['\\', c] + ContentText(Unspaced(more));
        assert s[2..] == ContentText(Unspaced(more));
    }
  }

  // ---- Identifiers

  /** Where a domain literal opens. */
  lemma LiteralOpens(right: Right, rest: string)
    requires IsRight(right) && right.Literal?
    ensures RightText(right) + rest ==
      GapText(right.before) + ("[" + (ContentText(right.content) + ("]" + (GapText(right.after) + rest))))
  {
    hide GapText, ContentText, IsRight;
    var before, inside, after := GapText(right.before), ContentText(right.content), GapText(right.after);
    assert ("]" + after) + rest == "]" + (after + rest);
    assert (inside + ("]" + after)) + rest == inside + ("]" + (after + rest));
    assert ("[" + (inside + ("]" + after))) + rest == "[" + (inside + ("]" + (after + rest)));
  }

  lemma BracketAt(v: string, i: nat, tail: string)
    requires i <= |v| && v[i..] == "[" + tail
    ensures i < |v| && v[i] == '[' && v[i + 1..] == tail
  {
    assert v[i] == v[i..][0];
    assert v[i + 1..] == v[i..][1..];
  }

  lemma LiteralRightIsScanned(right: Right)
    requires IsRight(right) && right.Literal?
    ensures ValidRightWithCfws(RightText(right))
  {
    hide GapText, IsGap, ContentText, CfwsEnd, ValidLiteralWithCfws, ValidDomainWithCfws, IsLiteral, Unspaced,
         ValidRightWithCfws, RightText;
    var v := RightText(right);
    var tail := ContentText(right.content) + ("]" + GapText(right.after));
    LiteralOpens(right, "");
    NothingAfter(v);
    NothingAfter(GapText(right.after));
    assert v[0..] == v;
    GapEnds(v, 0, right.before, "[" + tail);
    var start := |GapText(right.before)|;
    BracketAt(v, start, tail);
    LiteralIsScanned(v, start + 1, right.content, false, right.after);
    RightUnfolds(v);
  }

  lemma LiteralRightIsBare(right: Right)
    requires IsRight(right) && right.Literal?
    ensures ValidIdRight(BareRight(right))
  {
    UnspacedIsValid(right.content);
    var inside := ContentText(Unspaced(right.content));
    var bare := "[" + (inside + "]");
    assert bare[1..|bare| - 1] == inside;
    hide IsGap, ContentText, ValidLiteralContent, IsLiteral, Unspaced;
  }

  lemma LiteralRightStrips(right: Right, out: string)
    requires IsRight(right) && right.Literal?
    ensures StripRun(Bare(out), RightText(right)) == Bare(out + BareRight(right))
  {
    hide GapText, IsGap, ContentText, IsLiteral, Unspaced, StripRun, RightText;
    var after := GapText(right.after);
    var tail := ContentText(right.content) + ("]" + after);
    LiteralOpens(right, "");
    NothingAfter(RightText(right));
    NothingAfter(after);
    GapStrips(right.before, out, "[" + tail);
    StripRunConcat(Bare(out), "[", tail);
    OpensLiteral(out);
    LiteralStripsTo(right.content, out + "[", after);
    var inside := ContentText(Unspaced(right.content));
    var all := out + "[" + (inside + "]");
    GapStrips(right.after, all, "");
    StripRunNothing(Bare(all));
    assert all == out + ("[" + (inside + "]"));
  }

  lemma StripRunNothing(s: StripState)
    ensures StripRun(s, "") == s
  {
  }

  lemma OpensLiteral(out: string)
    ensures StripRun(Bare(out), "[") == Live(false, true, false, 0, out + "[")
  {
    StripsOne(Bare(out), '[');
  }

  lemma LiteralRightIsInert(right: Right)
    requires IsRight(right) && right.Literal?
    ensures Inert(RightText(right))
  {
    hide GapText, IsGap, ContentText, IsLiteral, Unspaced, StaysLiteral, Inert;
    var inside, after := ContentText(right.content), GapText(right.after);
    ContentStaysLiteral(right.content);
    LiteralIsInert(inside);
    GapIsInert(right.before);
    GapIsInert(right.after);
    InertConcat("[" + (inside + "]"), after);
    InertConcat(GapText(right.before), "[" + (inside + "]") + after);
    assert "[" + (inside + ("]" + after)) == "[" + (inside + "]") + after;
  }

  lemma DomainRightIsScanned(right: Right)
    requires IsRight(right) && right.Domain?
    ensures ValidRightWithCfws(RightText(right))
  {
    hide GapText, IsGap, CfwsEnd, ValidLiteralWithCfws, ValidDomainWithCfws, ValidRightWithCfws, Dotted, IsDressed,
         DressedText, AreDressed;
    var v := RightText(right);
    assert v[0..] == v;
    AreDressedCons(right.atoms);
    DottedIsValid(v, 0, right.atoms);
    var first := right.atoms[0];
    DottedUnfolds(right.atoms, "");
    var more := if |right.atoms| == 1 then "" else "." + Dotted(right.atoms[1..]);
    DressedParts(first, more);
    NothingAfter(DressedText(first));
    DressedIs(first);
    var tail := GapText(first.after) + more;
    WordStarts(first.word, tail);
    GapEnds(v, 0, first.before, WordText(first.word) + tail);
    NoBracket(first.word, tail);
    var start := |GapText(first.before)|;
    assert start < |v| ==> v[start] == v[start..][0];
    RightUnfolds(v);
  }

  lemma NoBracket(word: Word, tail: string)
    requires IsWord(word) && word.Run?
    ensures (WordText(word) + tail)[0] != '['
  {
    RunIsAtom(word.text);
    AtextIsOrdinary(word.text[0]);
    hide IsAtext, IsIdChar;
  }

  lemma RightIsScanned(right: Right)
    requires IsRight(right)
    ensures ValidRightWithCfws(RightText(right))
  {
    hide *;
    if right.Domain? {
      DomainRightIsScanned(right);
    } else {
      LiteralRightIsScanned(right);
    }
  }

  lemma RightIsBare(right: Right)
    requires IsRight(right)
    ensures ValidIdRight(BareRight(right))
  {
    if right.Domain? {
      BareIsValid(right.atoms);
    } else {
      LiteralRightIsBare(right);
    }
    hide ValidDotAtom, ValidNoFoldLiteral, BareText, AreDressed;
  }

  lemma RightStripsTo(right: Right, out: string)
    requires IsRight(right)
    ensures StripRun(Bare(out), RightText(right)) == Bare(out + BareRight(right))
  {
    hide StripRun, BareText, Dotted, IsDressed;
    if right.Domain? {
      DotStops("");
      DottedStrips(right.atoms, out, "");
      NothingAfter(Dotted(right.atoms));
      StripRunNothing(Bare(out + BareText(right.atoms)));
    } else {
      LiteralRightStrips(right, out);
    }
  }

  lemma RightTextIsInert(right: Right)
    requires IsRight(right)
    ensures Inert(RightText(right))
  {
    hide Inert, Dotted, AreDressed;
    if right.Domain? {
      DottedIsInert(right.atoms);
    } else {
      LiteralRightIsInert(right);
    }
  }

  lemma InnerStrips(id: Id)
    requires IsId(id)
    ensures Stripped(Dotted(id.left) + "@" + RightText(id.right)) == Some(BareText(id.left) + "@" + BareRight(id.right))
  {
    hide StripRun, Dotted, RightText, BareText, BareRight, IsDressed, IsRight, StopsWord;
    var l, r := Dotted(id.left), RightText(id.right);
    var bare := BareText(id.left);
    DotStops(r);
    DottedStrips(id.left, "", "@" + r);
    assert "" + bare == bare;
    assert l + "@" + r == l + ("@" + r);
    AtIsKept(bare, r);
    RightStripsTo(id.right, bare + "@");
  }

  /** Whatever comments and blanks are written into an identifier, it is accepted
      in a threading header and reduced to its words. */
  lemma WrittenIdIsAccepted(id: Id)
    requires IsId(id)
    ensures Canonical(IdText(id), true) == Some(BareId(id))
  {
    hide Dotted, RightText, BareText, BareRight, IsDressed, IsRight, Separator, Rechecked, Stripped, ValidLeftWithCfws,
         ValidRightWithCfws, ValidObsIdLeft, ValidIdRight, Inert, Canonical;
    var l, r := Dotted(id.left), RightText(id.right);
    var inner := l + "@" + r;
    DottedIsInert(id.left);
    RightTextIsInert(id.right);
    InertHalvesSeparate(l, r);
    assert inner[..|l|] == l && inner[|l| + 1..] == r;
    assert l[0..] == l;
    DottedIsValid(l, 0, id.left);
    RightIsScanned(id.right);
    InnerStrips(id);
    BareIsValid(id.left);
    RightIsBare(id.right);
    RecheckPasses(BareText(id.left), BareRight(id.right));
    CanonicalUnfolds(inner, |l|, true);
  }

  lemma NoGapText(word: Word)
    ensures DressedText(Dressed(NoGap, word, NoGap)) == WordText(word)
  {
    hide WordText;
  }

  lemma {:induction false} BareIsDotted(words: seq<Dressed>)
    requires AreDressed(words) && AreBare(words)
    ensures Dotted(words) == BareText(words) && AreRuns(words)
    decreases |words|
  {
    hide WordText, DressedText, IsDressed;
    NoGapText(words[0].word);
    if |words| > 1 {
      BareIsDotted(words[1..]);
    }
  }

  lemma CurrentRight(right: Right)
    requires IsRight(right) && IsCurrent(Id([], right))
    ensures RightText(right) == BareRight(right)
  {
    hide Dotted, BareText, ContentText, IsDressed, Unspaced, IsLiteral;
    match right {
      case Domain(atoms) =>
        BareIsDotted(atoms);
      case Literal(before, content, after) =>
        assert "" + ("[" + (ContentText(content) + ("]" + ""))) == "[" + (ContentText(content) + "]");
    }
  }

  /** An identifier of the current syntax is bare as it stands. */
  lemma CurrentIsBare(id: Id)
    requires IsId(id) && IsCurrent(id)
    ensures IdText(id) == BareId(id)
    ensures ValidObsIdLeft(BareText(id.left)) && ValidDotAtom(BareText(id.left)) && ValidIdRight(BareRight(id.right))
  {
    hide BareText, BareRight, IsDressed, IsRight, ValidObsIdLeft, ValidIdRight, Dotted, RightText, ValidDotAtom;
    BareIsDotted(id.left);
    CurrentRight(id.right);
    BareIsValid(id.left);
    RightIsBare(id.right);
  }

  lemma StrictReduced(left: string, right: string)
    requires ValidDotAtom(left) && ValidIdRight(right)
    ensures Reduced(left + "@" + right, |left|, false) == Some(left + "@" + right)
  {
    var inner := left + "@" + right;
    assert inner[..|left|] == left && inner[|left| + 1..] == right;
    hide ValidDotAtom, ValidIdRight;
  }

  /** And it is accepted in both modes, unchanged. */
  lemma CurrentIdIsAccepted(id: Id, obsolete: bool)
    requires IsId(id) && IsCurrent(id)
    ensures Canonical(IdText(id), obsolete) == Some(IdText(id))
  {
    hide IdText, BareText, BareRight, IsDressed, IsRight, IsCurrent, Separator, Rechecked, ValidObsIdLeft, ValidDotAtom,
         ValidIdRight, Canonical, Reduced, Hides;
    CurrentIsBare(id);
    var l, r := BareText(id.left), BareRight(id.right);
    if obsolete {
      CanonicalText(l, r);
    } else {
      CanonicalIsPrintable(IdText(id));
      CanonicalHalvesSeparate(l, r);
      RecheckPasses(l, r);
      StrictReduced(l, r);
      CanonicalUnfolds(l + "@" + r, |l|, false);
    }
  }
}
