// What is accepted as a threading header's value: every sequence of identifiers,
// comments, blanks and phrases that the grammar writes is read as its identifiers
// (crates/notm-mail/src/rfc5322.rs).
module IdValues {
  import opened MailText
  import opened IdScanners
  import opened IdCanonical
  import opened IdSequence
  import opened EncodedWordSyntax
  import opened ThreadingHeader
  import opened IdPrinting
  import opened IdGaps
  import opened IdAcceptance

  // ---- Words of phrases

  /** What may follow a run: nothing, or a delimiter. */
  predicate StopsRun(rest: string) {
    rest == "" || (IsAscii(rest[0]) && !IsAtext(rest[0]))
  }

  lemma {:induction false} RunEnds(v: string, i: nat, text: string, rest: string)
    requires i <= |v| && v[i..] == text + rest && StopsRun(rest)
    requires forall k | 0 <= k < |text| :: IsIdChar(text[k]) || IsForeign(text[k])
    ensures PhraseAtomEnd(v, i) == Some(i + |text|)
    decreases |text|
  {
    hide IsIdChar, IsForeign;
    if text == "" {
      assert "" + rest == rest;
      if rest != "" {
        FirstAt(v, i, rest);
      }
    } else {
      FirstAt(v, i, text + rest);
      assert v[i + 1..] == v[i..][1..] == text[1..] + rest;
      RunChar(text[0]);
      RunEnds(v, i + 1, text[1..], rest);
    }
  }

  lemma RunChar(c: char)
    requires IsIdChar(c) || IsForeign(c)
    ensures (!IsAscii(c) || IsAtext(c)) && !IsControl(c)
  {
    AtextIsListed(c);
  }

  lemma {:induction false} QuoteEnds(v: string, i: nat, content: Content, rest: string)
    requires i <= |v| && v[i..] == ContentText(content) + ("\"" + rest) && IsPhraseQuote(content)
    ensures PhraseQuotedEnd(v, i) == Some(i + |ContentText(content)| + 1)
    decreases content
  {
    match content {
      case Done =>
        assert "" + ("\"" + rest) == "\"" + rest;
        assert v[i] == v[i..][0];
      case Char(c, more) =>
        FrontIs(v, i, [c], ContentText(more), "\"" + rest);
        QuoteEnds(v, i + 1, more, rest);
      case Pair(c, more) =>
        FrontIs(v, i, ['\\', c], ContentText(more), "\"" + rest);
        QuoteEnds(v, i + 2, more, rest);
    }
  }

  /** No gap, bracket or dot begins a word of a phrase. */
  lemma PhraseWordStarts(word: PhraseWord, rest: string)
    requires IsPhraseWord(word)
    ensures PhraseWordText(word) != ""
    ensures var c := (PhraseWordText(word) + rest)[0];
      !IsGapStart(c) && c != '<' && c != '.' && (c == '"' <==> word.PhraseQuote?)
  {
    match word {
      case PhraseRun(text) => AtextIsListed(text[0]);
      case PhraseQuote(_) =>
      case PhraseEncoded(text) => EncodedStarts(text);
    }
    hide IsEncodedWord, IsPhraseQuote, ContentText;
  }

  lemma EncodedStarts(text: string)
    requires IsEncodedWord(text)
    ensures |text| > 2 && text[0] == '=' && text[1] == '?'
  {
    hide IsEncodedWordToken, AllGraphic;
    var charset, encoding, inside :| IsEncodedWordOf(text, charset, encoding, inside);
    assert text == "=?" + (charset + "?" + encoding + "?" + inside + "?=");
  }

  /** A blank or the start of the value stands before. */
  predicate BlankBefore(v: string, i: nat)
    requires i <= |v|
  {
    i == 0 || IsWsp(v[i - 1])
  }

  predicate StartsBlank(rest: string) {
    rest == "" || IsWsp(rest[0])
  }

  lemma PhraseWordEnds(v: string, i: nat, word: PhraseWord, rest: string)
    requires i <= |v| && v[i..] == PhraseWordText(word) + rest && IsPhraseWord(word)
    requires word.PhraseRun? ==> StopsRun(rest)
    requires word.PhraseEncoded? ==> BlankBefore(v, i) && StartsBlank(rest)
    ensures i + |PhraseWordText(word)| <= |v| && v[i + |PhraseWordText(word)|..] == rest
    ensures PhraseWordEnd(v, i) == Some(i + |PhraseWordText(word)|)
  {
    hide *;
    PhraseWordStarts(word, rest);
    FirstAt(v, i, PhraseWordText(word) + rest);
    PieceAt(v, i, PhraseWordText(word), rest);
    match word {
      case PhraseRun(text) =>
        RunText(word);
        RunEnds(v, i, text, rest);
        RunIsNoEncoded(v, i, text, rest);
        RunIsWord(v, i);
      case PhraseQuote(content) =>
        QuoteText(word);
        var inside := ContentText(content);
        FrontIs(v, i, "\"", inside + "\"", rest);
        Assoc(inside, "\"", rest);
        QuoteEnds(v, i + 1, content, rest);
        QuoteIsWord(v, i);
      case PhraseEncoded(text) =>
        EncodedText(word);
        EncodedStarts(text);
        EncodedEnds(v, i, text, rest);
    }
  }

  lemma RunIsNoEncoded(v: string, i: nat, text: string, rest: string)
    requires i < |v| && v[i..] == text + rest && text != "" && !("=?" <= text) && StopsRun(rest)
    ensures !(i + 2 <= |v| && v[i] == '=' && v[i + 1] == '?')
  {
    if i + 2 <= |v| {
      assert v[i] == v[i..][0] && v[i + 1] == v[i..][1];
      assert |text| > 1 ==> text[..2] == [text[0], text[1]];
    }
  }

  lemma EncodedText(word: PhraseWord)
    requires IsPhraseWord(word) && word.PhraseEncoded?
    ensures PhraseWordText(word) == word.text && IsEncodedWord(word.text)
  {
    hide IsEncodedWord;
  }

  lemma EncodedEnds(v: string, i: nat, text: string, rest: string)
    requires i <= |v| && v[i..] == text + rest && IsEncodedWord(text) && BlankBefore(v, i) && StartsBlank(rest)
    ensures PhraseWordEnd(v, i) == Some(i + |text|)
  {
    EncodedStarts(text);
    PieceAt(v, i, text, rest);
    var end := i + |text|;
    assert v[i] == v[i..][0] && v[i + 1] == v[i..][1];
    assert rest != "" ==> v[end] == v[end..][0];
    assert |v| == end + |rest|;
    assert IsEncodedWordAt(v, i, end);
    EncodedWordIsExact(v, i, end);
    hide IsEncodedWord, EncodedWordEnd, IsEncodedWordAt, PhraseAtomEnd, PhraseQuotedEnd;
  }

  lemma RunText(word: PhraseWord)
    requires IsPhraseWord(word) && word.PhraseRun?
    ensures PhraseWordText(word) == word.text != "" && !("=?" <= word.text)
    ensures forall k | 0 <= k < |word.text| :: IsIdChar(word.text[k]) || IsForeign(word.text[k])
  {
    hide IsIdChar, IsForeign;
  }

  lemma QuoteText(word: PhraseWord)
    requires IsPhraseWord(word) && word.PhraseQuote?
    ensures PhraseWordText(word) == "\"" + (ContentText(word.content) + "\"") && IsPhraseQuote(word.content)
  {
    hide ContentText, IsPhraseQuote;
  }

  lemma RunIsWord(v: string, i: nat)
    requires i < |v| && !(i + 2 <= |v| && v[i] == '=' && v[i + 1] == '?') && v[i] != '"'
    requires PhraseAtomEnd(v, i) != Some(i)
    ensures PhraseWordEnd(v, i) == PhraseAtomEnd(v, i)
  {
    hide PhraseAtomEnd;
  }

  lemma QuoteIsWord(v: string, i: nat)
    requires i < |v| && v[i] == '"'
    ensures PhraseWordEnd(v, i) == PhraseQuotedEnd(v, i + 1)
  {
    hide PhraseQuotedEnd, EncodedWordEnd;
  }

  lemma Assoc(a: string, b: string, c: string)
    ensures (a + b) + c == a + (b + c)
  {
  }

  // ---- Phrases

  lemma TailStops(tail: Tail, last: bool, rest: string)
    requires IsTail(tail, true, false, last) && (rest == "" || rest[0] == '<')
    ensures StopsRun(TailText(tail) + rest)
  {
    match tail {
      case TailEnd =>
      case TailGap(gap, more) =>
        GapTextUnfolds(gap);
      case TailDot(more) =>
      case TailWord(word, more) =>
        PhraseWordStarts(word, TailText(more));
    }
    hide IsGap, GapText, CommentText, ContentText, IsIdChar, IsEncodedWord;
  }

  lemma TailStartsBlank(tail: Tail, last: bool, rest: string)
    requires LeavesBlank(tail, last) && (last ==> rest == "")
    requires tail.TailGap? ==> IsGap(tail.gap)
    ensures StartsBlank(TailText(tail) + rest)
  {
    if tail.TailGap? {
      GapTextUnfolds(tail.gap);
    }
    hide IsGap, GapText, CommentText;
  }

  lemma {:induction false} GapLast(gap: Gap)
    requires IsGap(gap) && gap != NoGap
    ensures GapText(gap) != "" && (EndsInBlank(gap) <==> IsWsp(GapText(gap)[|GapText(gap)| - 1]))
    decreases gap
  {
    hide CommentText, IsComment;
    if gap.more != NoGap {
      GapLast(gap.more);
    }
  }

  lemma TailStep(v: string, i: nat)
    requires i < |v| && !IsGapStart(v[i])
    ensures v[i] == '<' ==> PhraseTailEnd(v, i) == Some(i)
    ensures v[i] == '.' ==> PhraseTailEnd(v, i) == PhraseTailEnd(v, i + 1)
    ensures v[i] != '<' && v[i] != '.' && PhraseWordEnd(v, i).Some? ==>
      PhraseTailEnd(v, i) == PhraseTailEnd(v, PhraseWordEnd(v, i).value)
  {
    CfwsUnfolds(v, i);
    hide CfwsEnd, CommentEnd, PhraseWordEnd;
  }

  lemma TailSame(v: string, i: nat, j: nat)
    requires i <= |v| && j <= |v| && CfwsEnd(v, i) == CfwsEnd(v, j)
    ensures PhraseTailEnd(v, i) == PhraseTailEnd(v, j)
  {
    hide CfwsEnd, PhraseWordEnd;
  }

  lemma TailNothing(v: string)
    ensures PhraseTailEnd(v, |v|) == Some(|v|)
  {
  }

  lemma FirstAt(v: string, i: nat, text: string)
    requires i <= |v| && v[i..] == text && text != ""
    ensures i < |v| && v[i] == text[0]
  {
    assert v[i] == v[i..][0];
  }

  lemma TailUnfolds(tail: Tail, afterRun: bool, afterBlank: bool, last: bool)
    requires IsTail(tail, afterRun, afterBlank, last)
    ensures TailText(tail) ==
      match tail
      case TailEnd => ""
      case TailGap(gap, more) => GapText(gap) + TailText(more)
      case TailDot(more) => "." + TailText(more)
      case TailWord(word, more) => PhraseWordText(word) + TailText(more)
    ensures tail.TailGap? ==>
      IsGap(tail.gap) && tail.gap != NoGap && IsTail(tail.more, false, EndsInBlank(tail.gap), last)
    ensures tail.TailDot? ==> IsTail(tail.more, false, false, last)
    ensures tail.TailWord? ==>
      && IsPhraseWord(tail.word) && IsTail(tail.more, tail.word.PhraseRun?, false, last)
      && (tail.word.PhraseEncoded? ==> afterBlank && LeavesBlank(tail.more, last))
      && (tail.more.TailGap? ==> IsGap(tail.more.gap))
  {
    hide GapText, PhraseWordText, IsGap, IsPhraseWord;
  }

  lemma {:induction false} TailIsRead(v: string, i: nat, tail: Tail, afterRun: bool, afterBlank: bool, last: bool,
                                      rest: string)
    requires i <= |v| && v[i..] == TailText(tail) + rest && IsTail(tail, afterRun, afterBlank, last)
    requires (rest == "" || rest[0] == '<') && (last ==> rest == "") && (afterBlank ==> BlankBefore(v, i))
    ensures i + |TailText(tail)| <= |v| && PhraseTailEnd(v, i) == Some(i + |TailText(tail)|)
    decreases tail
  {
    hide *;
    TailUnfolds(tail, afterRun, afterBlank, last);
    match tail {
      case TailEnd =>
        assert "" + rest == rest;
        NoTailIsRead(v, i, rest);
      case TailGap(gap, more) =>
        TailGapIsRead(v, i, gap, TailText(more), rest);
        TailIsRead(v, i + |GapText(gap)|, more, false, EndsInBlank(gap), last, rest);
      case TailDot(more) =>
        TailDotIsRead(v, i, TailText(more), rest);
        TailIsRead(v, i + 1, more, false, false, last, rest);
      case TailWord(word, more) =>
        TailWordIsRead(v, i, word, more, afterBlank, last, rest);
        TailIsRead(v, i + |PhraseWordText(word)|, more, word.PhraseRun?, false, last, rest);
    }
  }

  lemma NoTailIsRead(v: string, i: nat, rest: string)
    requires i <= |v| && v[i..] == rest && (rest == "" || rest[0] == '<')
    ensures PhraseTailEnd(v, i) == Some(i)
  {
    hide *;
    if rest == "" {
      assert |v[i..]| == |v| - i;
      TailNothing(v);
    } else {
      FirstAt(v, i, rest);
      BracketIsNoGap();
      TailStep(v, i);
    }
  }

  lemma TailGapIsRead(v: string, i: nat, gap: Gap, more: string, rest: string)
    requires i <= |v| && v[i..] == (GapText(gap) + more) + rest && IsGap(gap) && gap != NoGap
    ensures var next := i + |GapText(gap)|;
      && next <= |v| && v[next..] == more + rest && PhraseTailEnd(v, i) == PhraseTailEnd(v, next)
      && (EndsInBlank(gap) ==> BlankBefore(v, next))
  {
    hide *;
    Assoc(GapText(gap), more, rest);
    GapIsSkipped(v, i, gap, more + rest);
    PieceAt(v, i, GapText(gap), more + rest);
    GapStandsBefore(v, i, gap);
    TailSame(v, i, i + |GapText(gap)|);
  }

  lemma GapStandsBefore(v: string, i: nat, gap: Gap)
    requires i + |GapText(gap)| <= |v| && v[i..i + |GapText(gap)|] == GapText(gap) && IsGap(gap) && gap != NoGap
    ensures BlankBefore(v, i + |GapText(gap)|) <==> EndsInBlank(gap)
  {
    hide GapText, IsGap, EndsInBlank;
    GapLast(gap);
    var end := i + |GapText(gap)|;
    assert v[end - 1] == v[i..end][|GapText(gap)| - 1];
  }

  lemma TailDotIsRead(v: string, i: nat, more: string, rest: string)
    requires i <= |v| && v[i..] == ("." + more) + rest
    ensures i < |v| && v[i + 1..] == more + rest && PhraseTailEnd(v, i) == PhraseTailEnd(v, i + 1)
  {
    hide *;
    Assoc(".", more, rest);
    DotAt(v, i, more + rest);
    BracketIsNoGap();
    TailStep(v, i);
  }

  lemma BracketIsNoGap()
    ensures !IsGapStart('<') && !IsGapStart('.')
  {
  }

  lemma TailWordIsRead(v: string, i: nat, word: PhraseWord, more: Tail, afterBlank: bool, last: bool, rest: string)
    requires i <= |v| && v[i..] == (PhraseWordText(word) + TailText(more)) + rest
    requires IsPhraseWord(word) && IsTail(more, word.PhraseRun?, false, last) && (more.TailGap? ==> IsGap(more.gap))
    requires word.PhraseEncoded? ==> afterBlank && LeavesBlank(more, last)
    requires (rest == "" || rest[0] == '<') && (last ==> rest == "") && (afterBlank ==> BlankBefore(v, i))
    ensures var end := i + |PhraseWordText(word)|;
      && end <= |v| && v[end..] == TailText(more) + rest
      && PhraseWordEnd(v, i) == Some(end) && PhraseTailEnd(v, i) == PhraseTailEnd(v, end)
    ensures i < |v| && !IsGapStart(v[i]) && v[i] != '<'
  {
    hide *;
    var after := TailText(more) + rest;
    Assoc(PhraseWordText(word), TailText(more), rest);
    if word.PhraseRun? {
      TailStops(more, last, rest);
    } else if word.PhraseEncoded? {
      TailStartsBlank(more, last, rest);
    }
    PhraseWordEnds(v, i, word, after);
    PhraseWordStarts(word, after);
    FirstAt(v, i, PhraseWordText(word) + after);
    TailStep(v, i);
  }

  lemma PhraseIsRead(v: string, i: nat, first: PhraseWord, tail: Tail, afterBlank: bool, last: bool, rest: string)
    requires var phrase := TailWord(first, tail);
      i <= |v| && v[i..] == TailText(phrase) + rest && IsTail(phrase, false, afterBlank, last)
    requires (rest == "" || rest[0] == '<') && (last ==> rest == "") && (afterBlank ==> BlankBefore(v, i))
    ensures var end := i + |TailText(TailWord(first, tail))|;
      end <= |v| && v[end..] == rest && PhraseEnd(v, i) == Some(end)
    ensures i < |v| && !IsGapStart(v[i]) && v[i] != '<'
  {
    hide PhraseTailEnd, PhraseWordText, TailText, IsTail, PhraseWordEnd, IsPhraseWord, IsGapStart, BlankBefore,
         LeavesBlank, IsGap;
    var phrase := TailWord(first, tail);
    TailUnfolds(phrase, false, afterBlank, last);
    PieceAt(v, i, TailText(phrase), rest);
    TailWordIsRead(v, i, first, tail, afterBlank, last, rest);
    TailIsRead(v, i + |PhraseWordText(first)|, tail, first.PhraseRun?, false, last, rest);
  }

  // ---- Values

  lemma ParseSame(v: string, i: nat, j: nat, obsolete: bool)
    requires i <= |v| && j <= |v| && CfwsEnd(v, i) == CfwsEnd(v, j)
    ensures ParseIds(v, i, obsolete) == ParseIds(v, j, obsolete)
  {
    hide *;
    if CfwsEnd(v, i).None? {
      ParseRejects(v, i, obsolete);
      ParseRejects(v, j, obsolete);
    } else {
      ParseStep(v, i, CfwsEnd(v, i).value, obsolete);
      ParseStep(v, j, CfwsEnd(v, i).value, obsolete);
    }
  }

  lemma NoGapHere(v: string, i: nat)
    requires i <= |v| && (i < |v| ==> !IsGapStart(v[i]))
    ensures CfwsEnd(v, i) == Some(i)
  {
    CfwsUnfolds(v, i);
    hide CfwsEnd;
  }

  lemma IdStands(id: Id, rest: string) returns (inner: string)
    requires IsId(id)
    ensures IdText(id) == "<" + inner + ">" && Hides(inner, '>')
  {
    hide Dotted, RightText, IsDressed, IsRight, Inert, Hides;
    inner := Dotted(id.left) + "@" + RightText(id.right);
    DottedIsInert(id.left);
    RightTextIsInert(id.right);
    InertHalvesSeparate(Dotted(id.left), RightText(id.right));
  }

  /** One identifier of a value, with whatever follows it. */
  lemma IdIsRead(v: string, i: nat, id: Id, obsolete: bool, rest: string)
    requires i <= |v| && IsId(id) && v[i..] == IdText(id) + rest && (obsolete || IsCurrent(id))
    ensures var end := i + |IdText(id)|;
      && end <= |v| && v[end..] == rest
      && ParseIds(v, i, obsolete) == Prepend([BareId(id)], ParseIds(v, end, obsolete))
  {
    hide *;
    var text := IdText(id);
    var inner := IdStands(id, rest);
    PieceAt(v, i, text, rest);
    InnerAt(v, i, inner);
    BracketIsNoGap();
    NoGapHere(v, i);
    InnerEnds(v, i + 1, inner);
    WrittenIdIsAccepted(id);
    if !obsolete {
      CurrentIdIsAccepted(id, false);
      CurrentIsBare(id);
    }
    ParseStep(v, i, i, obsolete);
  }

  lemma InnerAt(v: string, i: nat, inner: string)
    requires i + |inner| + 2 <= |v| && v[i..i + |inner| + 2] == "<" + inner + ">"
    ensures v[i] == '<' && v[i + 1..i + 1 + |inner|] == inner && v[i + 1 + |inner|] == '>'
  {
    var slice := v[i..i + |inner| + 2];
    SliceOfSlice(v, i, i + |inner| + 2, 0, 0);
    SliceOfSlice(v, i, i + |inner| + 2, 1, 1 + |inner|);
    assert slice[1..1 + |inner|] == inner && slice[1 + |inner|] == '>';
  }

  /** What a phrase may stand before: the end of a value, or an identifier. */
  lemma IdStarts(value: Value)
    requires value.ValueEnd? || value.ValueId?
    ensures ValueText(value) == "" || ValueText(value)[0] == '<'
    ensures value.ValueEnd? ==> ValueText(value) == ""
  {
    hide Dotted, RightText;
  }

  lemma ValueUnfolds(value: Value, obsolete: bool, afterBlank: bool)
    requires IsValue(value, obsolete, afterBlank)
    ensures value.ValueGap? ==>
      IsGap(value.gap) && value.gap != NoGap && IsValue(value.more, obsolete, EndsInBlank(value.gap))
    ensures value.ValueId? ==>
      IsId(value.id) && (obsolete || IsCurrent(value.id)) && IsValue(value.more, obsolete, false)
    ensures value.ValuePhrase? ==>
      && obsolete && (value.more.ValueEnd? || value.more.ValueId?) && IsValue(value.more, obsolete, false)
      && IsTail(TailWord(value.first, value.tail), false, afterBlank, value.more.ValueEnd?)
    ensures ValueText(value) ==
      match value
      case ValueEnd => ""
      case ValueGap(gap, more) => GapText(gap) + ValueText(more)
      case ValueId(id, more) => IdText(id) + ValueText(more)
      case ValuePhrase(first, tail, more) => TailText(TailWord(first, tail)) + ValueText(more)
    ensures IdsIn(value) ==
      match value
      case ValueEnd => []
      case ValueGap(_, more) => IdsIn(more)
      case ValueId(id, more) => [BareId(id)] + IdsIn(more)
      case ValuePhrase(_, _, more) => IdsIn(more)
  {
    hide GapText, IdText, TailText, PhraseWordText, IsId, IsGap, IsTail, IsPhraseWord, BareId, IsCurrent;
  }

  lemma PhraseStep(v: string, i: nat, end: nat)
    requires i < |v| && !IsGapStart(v[i]) && v[i] != '<' && PhraseEnd(v, i) == Some(end)
    ensures end <= |v| && ParseIds(v, i, true) == ParseIds(v, end, true)
  {
    NoGapHere(v, i);
    ParseStep(v, i, i, true);
    hide PhraseWordEnd, PhraseTailEnd, ParseIds, IsGapStart;
  }

  lemma ParsedNothing(v: string, i: nat, obsolete: bool)
    requires i <= |v| && v[i..] == ""
    ensures ParseIds(v, i, obsolete) == Some([])
  {
    hide ParseIds;
    assert |v[i..]| == |v| - i;
    ParseNothing(v, obsolete);
  }

  /** Every written value is read, in either mode, as the identifiers in it. */
  lemma {:induction false} WrittenValueIsRead(v: string, i: nat, value: Value, obsolete: bool, afterBlank: bool)
    requires i <= |v| && IsValue(value, obsolete, afterBlank) && v[i..] == ValueText(value)
    requires afterBlank ==> BlankBefore(v, i)
    ensures ParseIds(v, i, obsolete) == Some(IdsIn(value))
    decreases value
  {
    hide *;
    ValueUnfolds(value, obsolete, afterBlank);
    match value {
      case ValueEnd =>
        ParsedNothing(v, i, obsolete);
      case ValueGap(gap, more) =>
        GapIsSkipped(v, i, gap, ValueText(more));
        PieceAt(v, i, GapText(gap), ValueText(more));
        GapStandsBefore(v, i, gap);
        ParseSame(v, i, i + |GapText(gap)|, obsolete);
        WrittenValueIsRead(v, i + |GapText(gap)|, more, obsolete, EndsInBlank(gap));
      case ValueId(id, more) =>
        IdIsRead(v, i, id, obsolete, ValueText(more));
        WrittenValueIsRead(v, i + |IdText(id)|, more, obsolete, false);
        PrependIs([BareId(id)], IdsIn(more));
      case ValuePhrase(first, tail, more) =>
        IdStarts(more);
        PhraseIsRead(v, i, first, tail, afterBlank, more.ValueEnd?, ValueText(more));
        var end := i + |TailText(TailWord(first, tail))|;
        PhraseStep(v, i, end);
        WrittenValueIsRead(v, end, more, obsolete, false);
    }
  }

  lemma PrependIs(ids: seq<string>, more: seq<string>)
    ensures Prepend(ids, Some(more)) == Some(ids + more)
  {
  }

  // ---- Whole fields

  lemma OneCharIsText(c: char)
    requires IsBlank(c) || IsVisible(c) || IsForeign(c)
    ensures IsHeaderText([c]) && IsHeaderText(['\\', c])
  {
  }

  lemma MarksAreText()
    ensures IsHeaderText("") && IsHeaderText("(") && IsHeaderText(")") && IsHeaderText("\"") && IsHeaderText(".")
    ensures IsHeaderText("[") && IsHeaderText("]") && IsHeaderText("<") && IsHeaderText("@") && IsHeaderText(">")
  {
  }

  lemma {:induction false} CommentIsText(comment: Comment)
    requires IsComment(comment)
    ensures IsHeaderText(CommentText(comment))
    decreases comment
  {
    hide IsHeaderText;
    MarksAreText();
    match comment {
      case End =>
      case Plain(c, rest) =>
        OneCharIsText(c);
        CommentIsText(rest);
        HeaderTextConcat([c], CommentText(rest));
      case Escaped(c, rest) =>
        OneCharIsText(c);
        CommentIsText(rest);
        HeaderTextConcat(['\\', c], CommentText(rest));
      case Nested(inner, rest) =>
        CommentIsText(inner);
        CommentIsText(rest);
        BracketedIsText(CommentText(inner), CommentText(rest));
    }
  }

  lemma BracketedIsText(inner: string, rest: string)
    requires IsHeaderText(inner) && IsHeaderText(rest)
    ensures IsHeaderText("(" + (inner + (")" + rest)))
  {
    hide *;
    MarksAreText();
    HeaderTextConcat(")", rest);
    HeaderTextConcat(inner, ")" + rest);
    HeaderTextConcat("(", inner + (")" + rest));
  }

  lemma {:induction false} GapIsText(gap: Gap)
    requires IsGap(gap)
    ensures IsHeaderText(GapText(gap))
    decreases gap
  {
    hide IsHeaderText, CommentText, IsComment;
    MarksAreText();
    match gap {
      case NoGap =>
      case Blank(c, more) =>
        OneCharIsText(c);
        GapIsText(more);
        HeaderTextConcat([c], GapText(more));
      case Remark(comment, more) =>
        CommentIsText(comment);
        GapIsText(more);
        BracketedIsText(CommentText(comment), GapText(more));
    }
  }

  /** Content of visible, blank and foreign characters. */
  predicate IsPlainContent(content: Content) {
    match content
    case Done => true
    case Char(c, more) => (IsBlank(c) || IsVisible(c) || IsForeign(c)) && IsPlainContent(more)
    case Pair(c, more) => (IsBlank(c) || IsVisible(c) || IsForeign(c)) && IsPlainContent(more)
  }

  lemma {:induction false} ContentIsPlain(content: Content)
    ensures IsQuotable(content) || IsLiteral(content) || IsPhraseQuote(content) ==> IsPlainContent(content)
    decreases content
  {
    match content {
      case Done =>
      case Char(_, more) => ContentIsPlain(more);
      case Pair(_, more) => ContentIsPlain(more);
    }
  }

  lemma {:induction false} ContentIsText(content: Content)
    requires IsPlainContent(content)
    ensures IsHeaderText(ContentText(content))
    decreases content
  {
    hide IsHeaderText;
    MarksAreText();
    match content {
      case Done =>
      case Char(c, more) =>
        OneCharIsText(c);
        ContentIsText(more);
        HeaderTextConcat([c], ContentText(more));
      case Pair(c, more) =>
        OneCharIsText(c);
        ContentIsText(more);
        HeaderTextConcat(['\\', c], ContentText(more));
    }
  }

  lemma QuotesAreText(content: Content)
    requires IsPlainContent(content)
    ensures IsHeaderText("\"" + (ContentText(content) + "\""))
  {
    hide *;
    MarksAreText();
    ContentIsText(content);
    HeaderTextConcat(ContentText(content), "\"");
    HeaderTextConcat("\"", ContentText(content) + "\"");
  }

  lemma RunIsHeaderText(text: string)
    requires forall k | 0 <= k < |text| :: IsIdChar(text[k]) || IsForeign(text[k])
    ensures IsHeaderText(text)
  {
    forall k | 0 <= k < |text|
      ensures text[k] == '\t' || !IsControl(text[k])
    {
      RunChar(text[k]);
    }
    hide IsIdChar, IsControl;
  }

  lemma DressedIsText(d: Dressed)
    requires IsDressed(d)
    ensures IsHeaderText(DressedText(d))
  {
    hide GapText, IsGap, IsHeaderText, ContentText, IsQuotable, IsPlainContent, IsIdChar;
    GapIsText(d.before);
    GapIsText(d.after);
    match d.word {
      case Run(text) => RunIsHeaderText(text);
      case Quoted(content) =>
        ContentIsPlain(content);
        QuotesAreText(content);
    }
    HeaderTextConcat(WordText(d.word), GapText(d.after));
    HeaderTextConcat(GapText(d.before), WordText(d.word) + GapText(d.after));
  }

  lemma {:induction false} DottedIsText(words: seq<Dressed>)
    requires AreDressed(words)
    ensures IsHeaderText(Dotted(words))
    decreases |words|
  {
    hide *;
    AreDressedCons(words);
    DottedUnfolds(words, "");
    DressedIsText(words[0]);
    if |words| > 1 {
      DottedIsText(words[1..]);
      MarksAreText();
      HeaderTextConcat(".", Dotted(words[1..]));
      HeaderTextConcat(DressedText(words[0]), "." + Dotted(words[1..]));
    }
  }

  lemma RightIsText(right: Right)
    requires IsRight(right)
    ensures IsHeaderText(RightText(right))
  {
    hide GapText, IsGap, IsHeaderText, ContentText, IsLiteral, Unspaced, IsPlainContent, Dotted, IsDressed;
    match right {
      case Domain(atoms) => DottedIsText(atoms);
      case Literal(before, content, after) =>
        MarksAreText();
        GapIsText(before);
        GapIsText(after);
        ContentIsPlain(content);
        ContentIsText(content);
        HeaderTextConcat("]", GapText(after));
        HeaderTextConcat(ContentText(content), "]" + GapText(after));
        HeaderTextConcat("[", ContentText(content) + ("]" + GapText(after)));
        HeaderTextConcat(GapText(before), "[" + (ContentText(content) + ("]" + GapText(after))));
    }
  }

  lemma IdIsText(id: Id)
    requires IsId(id)
    ensures IsHeaderText(IdText(id))
  {
    hide IsHeaderText, Dotted, RightText, IsDressed, IsRight;
    MarksAreText();
    DottedIsText(id.left);
    RightIsText(id.right);
    HeaderTextConcat(Dotted(id.left), "@");
    HeaderTextConcat(Dotted(id.left) + "@", RightText(id.right));
    HeaderTextConcat("<", Dotted(id.left) + "@" + RightText(id.right));
    HeaderTextConcat("<" + (Dotted(id.left) + "@" + RightText(id.right)), ">");
  }

  lemma PhraseWordIsText(word: PhraseWord)
    requires IsPhraseWord(word)
    ensures IsHeaderText(PhraseWordText(word))
  {
    hide *;
    match word {
      case PhraseRun(text) =>
        RunText(word);
        RunIsHeaderText(text);
      case PhraseQuote(content) =>
        QuoteText(word);
        ContentIsPlain(content);
        QuotesAreText(content);
      case PhraseEncoded(text) =>
        EncodedText(word);
        EncodedIsText(text);
    }
  }

  lemma EncodedIsText(text: string)
    requires IsEncodedWord(text)
    ensures IsHeaderText(text)
  {
    var charset, encoding, inside :| IsEncodedWordOf(text, charset, encoding, inside);
  }

  lemma {:induction false} TailIsText(tail: Tail, afterRun: bool, afterBlank: bool, last: bool)
    requires IsTail(tail, afterRun, afterBlank, last)
    ensures IsHeaderText(TailText(tail))
    decreases tail
  {
    hide *;
    MarksAreText();
    TailUnfolds(tail, afterRun, afterBlank, last);
    match tail {
      case TailEnd =>
      case TailGap(gap, more) =>
        GapIsText(gap);
        TailIsText(more, false, EndsInBlank(gap), last);
        HeaderTextConcat(GapText(gap), TailText(more));
      case TailDot(more) =>
        TailIsText(more, false, false, last);
        HeaderTextConcat(".", TailText(more));
      case TailWord(word, more) =>
        PhraseWordIsText(word);
        TailIsText(more, word.PhraseRun?, false, last);
        HeaderTextConcat(PhraseWordText(word), TailText(more));
    }
  }

  lemma {:induction false} ValueIsText(value: Value, obsolete: bool, afterBlank: bool)
    requires IsValue(value, obsolete, afterBlank)
    ensures IsHeaderText(ValueText(value))
    decreases value
  {
    hide *;
    MarksAreText();
    ValueUnfolds(value, obsolete, afterBlank);
    match value {
      case ValueEnd =>
      case ValueGap(gap, more) =>
        GapIsText(gap);
        ValueIsText(more, obsolete, EndsInBlank(gap));
        HeaderTextConcat(GapText(gap), ValueText(more));
      case ValueId(id, more) =>
        IdIsText(id);
        ValueIsText(more, obsolete, false);
        HeaderTextConcat(IdText(id), ValueText(more));
      case ValuePhrase(first, tail, more) =>
        TailIsText(TailWord(first, tail), false, afterBlank, more.ValueEnd?);
        ValueIsText(more, obsolete, false);
        HeaderTextConcat(TailText(TailWord(first, tail)), ValueText(more));
    }
  }

  ghost predicate AreValues(values: seq<Value>, obsolete: bool) {
    forall k | 0 <= k < |values| :: IsValue(values[k], obsolete, true)
  }

  function TextsOf(values: seq<Value>): (texts: seq<string>)
    ensures |texts| == |values|
  {
    seq(|values|, k requires 0 <= k < |values| => ValueText(values[k]))
  }

  function AllIdsIn(values: seq<Value>): seq<string> {
    if values == [] then [] else IdsIn(values[0]) + AllIdsIn(values[1..])
  }

  /** Whatever the grammar writes into a field is read as the identifiers in it: a
      threading header with all that is obsolete, a Message-ID without. */
  lemma {:induction false} WrittenFieldIsRead(values: seq<Value>, obsolete: bool)
    requires AreValues(values, obsolete)
    ensures TokensOf(TextsOf(values), obsolete) == Some(AllIdsIn(values))
    decreases |values|
  {
    hide IsValue, ValueText, IdsIn, ParseIds, IsHeaderText;
    var texts := TextsOf(values);
    if values != [] {
      ValueIsText(values[0], obsolete, true);
      assert texts[0][0..] == texts[0];
      WrittenValueIsRead(texts[0], 0, values[0], obsolete, true);
      WrittenFieldIsRead(values[1..], obsolete);
      assert texts[1..] == TextsOf(values[1..]);
      TokensStep(texts, IdsIn(values[0]), AllIdsIn(values[1..]), obsolete);
    }
  }

  // ---- The plainest identifiers

  predicate AreTexts(runs: seq<string>) {
    runs != [] && forall k | 0 <= k < |runs| :: IsRun(runs[k])
  }

  function WithDots(runs: seq<string>): string
    requires runs != []
  {
    if |runs| == 1 then runs[0] else runs[0] + ("." + WithDots(runs[1..]))
  }

  function Atoms(runs: seq<string>): seq<Dressed> {
    seq(|runs|, k requires 0 <= k < |runs| => Dressed(NoGap, Run(runs[k]), NoGap))
  }

  lemma {:induction false} AtomsAre(runs: seq<string>)
    requires AreTexts(runs)
    ensures AreDressed(Atoms(runs)) && AreBare(Atoms(runs)) && Dotted(Atoms(runs)) == WithDots(runs)
    decreases |runs|
  {
    hide IsRun, DressedText;
    var atoms := Atoms(runs);
    NoGapText(Run(runs[0]));
    if |runs| > 1 {
      AtomsAre(runs[1..]);
      assert atoms[1..] == Atoms(runs[1..]);
    }
  }

  lemma PlainId(left: seq<string>, right: seq<string>) returns (id: Id)
    requires AreTexts(left) && AreTexts(right)
    ensures IsId(id) && IsCurrent(id)
    ensures IdText(id) == BareId(id) == "<" + (WithDots(left) + "@" + WithDots(right)) + ">"
  {
    hide AreDressed, AreBare, Dotted, WithDots, AreTexts, BareText;
    id := Id(Atoms(left), Domain(Atoms(right)));
    AtomsAre(left);
    AtomsAre(right);
    BareIsDotted(id.left);
    assert forall k | 0 <= k < |right| :: Atoms(right)[k].word.Run?;
    CurrentIsBare(id);
  }

  lemma OneValueIsRead(value: Value, obsolete: bool)
    requires IsValue(value, obsolete, true)
    ensures TokensOf([ValueText(value)], obsolete) == Some(IdsIn(value))
  {
    hide ParseIds, IsValue, ValueText, IdsIn, IsHeaderText, TokensOf;
    var text := ValueText(value);
    ValueIsText(value, obsolete, true);
    assert text[0..] == text;
    WrittenValueIsRead(text, 0, value, obsolete, true);
    OneValue(text, IdsIn(value), obsolete);
  }

  lemma PlainValue(id: Id, obsolete: bool)
    requires IsId(id) && IsCurrent(id)
    ensures TokensOf([IdText(id)], obsolete) == Some([BareId(id)])
  {
    hide IsId, IsCurrent, IsGap, IdText, GapText, BareId, TokensOf, IsTail, TailText;
    var value := ValueId(id, ValueEnd);
    assert IsValue(ValueEnd, obsolete, false) && IsValue(value, obsolete, true);
    ValueUnfolds(ValueEnd, obsolete, false);
    ValueUnfolds(value, obsolete, true);
    assert IdText(id) + "" == IdText(id) && [BareId(id)] + [] == [BareId(id)];
    OneValueIsRead(value, obsolete);
  }

  lemma RemarkedValue(id: Id, comment: Comment)
    requires IsId(id) && IsCurrent(id) && IsComment(comment)
    ensures TokensOf([IdText(id) + ("(" + (CommentText(comment) + ")"))], false) == Some([BareId(id)])
  {
    var gap := Remark(comment, NoGap);
    RemarkText(comment);
    hide IsId, IsCurrent, IsGap, IdText, GapText, BareId, TokensOf, IsTail, TailText;
    var rest := ValueGap(gap, ValueEnd);
    var value := ValueId(id, rest);
    assert IsValue(ValueEnd, false, EndsInBlank(gap));
    assert IsValue(rest, false, false);
    assert IsValue(value, false, true);
    ValueUnfolds(ValueEnd, false, EndsInBlank(gap));
    ValueUnfolds(rest, false, false);
    ValueUnfolds(value, false, true);
    assert GapText(gap) + "" == GapText(gap) && [BareId(id)] + [] == [BareId(id)];
    OneValueIsRead(value, false);
  }

  lemma PhrasedValue(id: Id, phrase: Tail)
    requires IsId(id) && phrase.TailWord? && IsTail(phrase, false, true, false)
    ensures TokensOf([TailText(phrase) + IdText(id)], true) == Some([BareId(id)])
  {
    hide IsId, IsCurrent, IsTail, IsPhraseWord, IdText, TailText, PhraseWordText, BareId, TokensOf;
    var rest := ValueId(id, ValueEnd);
    var value := ValuePhrase(phrase.word, phrase.more, rest);
    assert phrase == TailWord(phrase.word, phrase.more);
    assert IsValue(ValueEnd, true, false);
    assert IsValue(rest, true, false);
    assert IsValue(value, true, true);
    ValueUnfolds(ValueEnd, true, false);
    ValueUnfolds(rest, true, false);
    ValueUnfolds(value, true, true);
    assert IdText(id) + "" == IdText(id) && [BareId(id)] + [] == [BareId(id)];
    OneValueIsRead(value, true);
  }

  lemma RemarkText(comment: Comment)
    requires IsComment(comment)
    ensures IsGap(Remark(comment, NoGap)) && GapText(Remark(comment, NoGap)) == "(" + (CommentText(comment) + ")")
  {
    hide CommentText, IsComment;
    assert ")" + GapText(NoGap) == ")";
  }

  /** An identifier of plain runs is read in both modes, alone and before a
      comment, and in a threading header after a phrase. */
  lemma PlainIdIsRead(left: seq<string>, right: seq<string>, comment: Comment, phrase: Tail)
    requires AreTexts(left) && AreTexts(right) && IsComment(comment)
    requires phrase.TailWord? && IsTail(phrase, false, true, false)
    ensures var id := "<" + (WithDots(left) + "@" + WithDots(right)) + ">";
      && TokensOf([id], false) == TokensOf([id], true) == Some([id])
      && TokensOf([id + ("(" + (CommentText(comment) + ")"))], false) == Some([id])
      && TokensOf([TailText(phrase) + id], true) == Some([id])
  {
    hide *;
    var id := PlainId(left, right);
    PlainValue(id, false);
    PlainValue(id, true);
    RemarkedValue(id, comment);
    PhrasedValue(id, phrase);
  }
}
