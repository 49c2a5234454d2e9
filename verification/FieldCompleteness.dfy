// Nothing else is read as a threading header: the accepted fields are exactly the
// texts of the grammar (crates/notm-mail/src/rfc5322.rs).
module FieldCompleteness {
  import opened MailText
  import opened IdScanners
  import opened IdCanonical
  import opened EncodedWordSyntax
  import opened IdSequence
  import opened IdPrinting
  import opened IdGaps
  import opened IdValues
  import opened IdCompleteness

  // ---- Words of phrases

  lemma TailAt(v: string, i: nat)
    requires i <= |v|
    ensures StopsRun(v[i..]) <==> i == |v| || (IsAscii(v[i]) && !IsAtext(v[i]))
    ensures StartsBlank(v[i..]) <==> i == |v| || IsWsp(v[i])
  {
    if i < |v| {
      assert v[i..][0] == v[i];
    }
  }

  lemma RunCharIs(c: char)
    requires !(IsAscii(c) && !IsAtext(c)) && !IsControl(c)
    ensures IsIdChar(c) || IsForeign(c)
  {
    AtextIsListed(c);
  }

  lemma {:induction false} PhraseRunIsWritten(v: string, i: nat)
    requires i <= |v| && PhraseAtomEnd(v, i).Some?
    ensures StopsRun(v[PhraseAtomEnd(v, i).value..])
    ensures forall k | i <= k < PhraseAtomEnd(v, i).value :: IsIdChar(v[k]) || IsForeign(v[k])
    decreases |v| - i
  {
    hide IsAtext, IsIdChar, IsForeign, StopsRun;
    TailAt(v, i);
    if i < |v| && !(IsAscii(v[i]) && !IsAtext(v[i])) {
      RunCharIs(v[i]);
      PhraseRunIsWritten(v, i + 1);
    }
  }

  lemma PhraseCharIs(c: char)
    ensures IsQuotedText(c) || (!IsAscii(c) && !IsControl(c)) <==>
      (IsBlank(c) || IsVisible(c) || IsForeign(c)) && c != '"' && c != '\\'
  {
  }

  lemma {:induction false} PhraseQuoteIsWritten(v: string, i: nat) returns (content: Content)
    requires i <= |v| && PhraseQuotedEnd(v, i).Some?
    ensures IsPhraseQuote(content) && v[i..PhraseQuotedEnd(v, i).value] == ContentText(content) + "\""
    decreases |v| - i
  {
    var end := PhraseQuotedEnd(v, i).value;
    PhraseCharIs(v[i]);
    OneAt(v, i);
    hide IsQuotedText, IsControl, IsBlank, IsVisible, IsForeign;
    if v[i] == '\\' {
      QuotedCharIs(v[i + 1]);
      var more := PhraseQuoteIsWritten(v, i + 2);
      content := Pair(v[i + 1], more);
      FrontJoins(v, i, i + 2, end);
    } else if v[i] == '"' {
      content := Done;
    } else {
      var more := PhraseQuoteIsWritten(v, i + 1);
      content := Char(v[i], more);
      FrontJoins(v, i, i + 1, end);
    }
  }

  /** The word that the scan finds, and what stands around it. */
  lemma PhraseWordIsWritten(v: string, i: nat) returns (word: PhraseWord)
    requires i < |v| && PhraseWordEnd(v, i).Some?
    ensures var end := PhraseWordEnd(v, i).value;
      && IsPhraseWord(word) && v[i..end] == PhraseWordText(word)
      && (word.PhraseRun? ==> StopsRun(v[end..]) && !StopsRun(v[i..]))
      && (word.PhraseEncoded? ==> BlankBefore(v, i) && (end == |v| || IsWsp(v[end])))
  {
    hide EncodedWordEnd, PhraseQuotedEnd, PhraseAtomEnd, StopsRun, IsPhraseWord, IsAtext;
    var end := PhraseWordEnd(v, i).value;
    if i + 2 <= |v| && v[i] == '=' && v[i + 1] == '?' {
      FoundIsEncodedWord(v, i, end);
      word := PhraseEncoded(v[i..end]);
      EncodedIsPhraseWord(v[i..end]);
    } else if v[i] == '"' {
      var content := PhraseQuoteIsWritten(v, i + 1);
      word := PhraseQuote(content);
      OneAt(v, i);
      FrontJoins(v, i, i + 1, end);
      QuoteIsPhraseWord(content);
    } else {
      PhraseRunIsWritten(v, i);
      word := PhraseRun(v[i..end]);
      RunIsPhraseWord(v, i, end);
    }
  }

  lemma EncodedIsPhraseWord(text: string)
    requires IsEncodedWord(text)
    ensures IsPhraseWord(PhraseEncoded(text))
  {
    hide IsEncodedWord;
  }

  lemma QuoteIsPhraseWord(content: Content)
    requires IsPhraseQuote(content)
    ensures IsPhraseWord(PhraseQuote(content))
  {
    hide IsPhraseQuote;
  }

  lemma RunIsPhraseWord(v: string, i: nat, end: nat)
    requires i < end <= |v| && forall k | i <= k < end :: IsIdChar(v[k]) || IsForeign(v[k])
    requires !(i + 2 <= |v| && v[i] == '=' && v[i + 1] == '?')
    ensures IsPhraseWord(PhraseRun(v[i..end])) && !StopsRun(v[i..])
  {
    hide IsIdChar, IsForeign, IsAtext;
    var text := v[i..end];
    assert forall k | 0 <= k < |text| :: text[k] == v[i + k];
    RunChar(v[i]);
    TailAt(v, i);
  }

  // ---- Phrases

  lemma GapFirst(gap: Gap)
    requires IsGap(gap)
    ensures GapText(gap) == "" <==> gap == NoGap
    ensures gap != NoGap ==> (gap.Blank? <==> IsWsp(GapText(gap)[0]))
  {
    hide CommentText, IsComment;
  }

  /** The gap at a position, and whether blanks bound it. */
  lemma GapIsThere(v: string, i: nat) returns (gap: Gap)
    requires i <= |v| && CfwsEnd(v, i).Some?
    ensures var next := CfwsEnd(v, i).value;
      && i <= next <= |v| && IsGap(gap) && v[i..next] == GapText(gap) && (gap == NoGap <==> next == i)
      && (gap != NoGap ==> (EndsInBlank(gap) <==> BlankBefore(v, next)) && (gap.Blank? <==> IsWsp(v[i])))
      && (next < |v| ==> !IsGapStart(v[next])) && CfwsEnd(v, next) == Some(next)
  {
    var next := CfwsEnd(v, i).value;
    assert next < |v| ==> !IsWsp(v[next]) && v[next] != '(';
    hide *;
    GoesOn(v, i);
    gap := GapIsWritten(v, i);
    GapFirst(gap);
    WordIsHere(v, next);
    NoGapHere(v, next);
    if gap != NoGap {
      GapStandsBefore(v, i, gap);
      assert v[i] == v[i..next][0];
    }
  }

  lemma WordIsHere(v: string, i: nat)
    requires i <= |v| && (i < |v| ==> !IsWsp(v[i]) && v[i] != '(')
    ensures i < |v| ==> !IsGapStart(v[i])
  {
  }

  lemma {:induction false} TailIsWritten(v: string, i: nat, afterRun: bool) returns (tail: Tail)
    requires i <= |v| && PhraseTailEnd(v, i).Some? && (afterRun ==> StopsRun(v[i..]))
    ensures var end := PhraseTailEnd(v, i).value;
      && i <= end <= |v| && v[i..end] == TailText(tail) && (end < |v| ==> v[end] == '<')
      && IsTail(tail, afterRun, BlankBefore(v, i), end == |v|)
      && (i == |v| ==> tail.TailEnd?) && (i < |v| && IsWsp(v[i]) ==> tail.TailGap? && tail.gap.Blank?)
    decreases |v| - i, 1
  {
    hide *;
    TailNeedsGap(v, i);
    var next := CfwsEnd(v, i).value;
    var gap := GapIsThere(v, i);
    TailSame(v, i, next);
    BlankIsNoWord(v, i);
    if gap == NoGap {
      tail := TailFromHere(v, i, afterRun);
    } else {
      var more := TailFromHere(v, next, false);
      tail := TailGap(gap, more);
      TailOfGap(gap, more, afterRun, BlankBefore(v, i), PhraseTailEnd(v, i).value == |v|);
      FrontJoins(v, i, next, PhraseTailEnd(v, i).value);
    }
  }

  lemma TailNeedsGap(v: string, i: nat)
    requires i <= |v| && PhraseTailEnd(v, i).Some?
    ensures CfwsEnd(v, i).Some? && i <= CfwsEnd(v, i).value <= |v|
  {
  }

  lemma BlankIsNoWord(v: string, i: nat)
    requires i <= |v|
    ensures i < |v| && IsWsp(v[i]) ==> IsGapStart(v[i])
  {
  }

  lemma TailOfGap(gap: Gap, more: Tail, afterRun: bool, afterBlank: bool, last: bool)
    requires IsGap(gap) && gap != NoGap && IsTail(more, false, EndsInBlank(gap), last)
    ensures IsTail(TailGap(gap, more), afterRun, afterBlank, last)
    ensures TailText(TailGap(gap, more)) == GapText(gap) + TailText(more)
  {
    hide IsGap, GapText;
  }

  lemma TailOfDot(more: Tail, afterRun: bool, afterBlank: bool, last: bool)
    requires IsTail(more, false, false, last)
    ensures IsTail(TailDot(more), afterRun, afterBlank, last) && TailText(TailDot(more)) == "." + TailText(more)
  {
  }

  lemma TailOfWord(word: PhraseWord, more: Tail, afterRun: bool, afterBlank: bool, last: bool)
    requires IsPhraseWord(word) && !(afterRun && word.PhraseRun?)
    requires (word.PhraseEncoded? ==> afterBlank && LeavesBlank(more, last))
    requires IsTail(more, word.PhraseRun?, false, last)
    ensures IsTail(TailWord(word, more), afterRun, afterBlank, last)
    ensures TailText(TailWord(word, more)) == PhraseWordText(word) + TailText(more)
  {
    hide IsPhraseWord, PhraseWordText;
  }

  lemma TailOfNothing(afterRun: bool, afterBlank: bool, last: bool)
    ensures IsTail(TailEnd, afterRun, afterBlank, last) && TailText(TailEnd) == ""
  {
  }

  /** The rest of a phrase where no gap stands. */
  lemma {:induction false} TailFromHere(v: string, i: nat, afterRun: bool) returns (tail: Tail)
    requires i <= |v| && PhraseTailEnd(v, i).Some? && (afterRun ==> StopsRun(v[i..]))
    requires i < |v| ==> !IsGapStart(v[i])
    ensures var end := PhraseTailEnd(v, i).value;
      && i <= end <= |v| && v[i..end] == TailText(tail) && (end < |v| ==> v[end] == '<')
      && IsTail(tail, afterRun, BlankBefore(v, i), end == |v|) && (i == |v| ==> tail.TailEnd?)
    decreases |v| - i, 0
  {
    hide *;
    if i == |v| || v[i] == '<' {
      PhraseStops(v, i);
      tail := TailEnd;
      TailOfNothing(afterRun, BlankBefore(v, i), PhraseTailEnd(v, i).value == |v|);
      assert v[i..i] == "";
    } else if v[i] == '.' {
      TailStep(v, i);
      var more := TailIsWritten(v, i + 1, false);
      tail := TailDot(more);
      DotIsNoBlank(v, i);
      OneAt(v, i);
      TailOfDot(more, afterRun, BlankBefore(v, i), PhraseTailEnd(v, i).value == |v|);
      FrontJoins(v, i, i + 1, PhraseTailEnd(v, i).value);
    } else {
      WordIsNeeded(v, i);
      TailStep(v, i);
      var word := PhraseWordIsWritten(v, i);
      var next := PhraseWordEnd(v, i).value;
      var more := TailIsWritten(v, next, word.PhraseRun?);
      tail := TailWord(word, more);
      WordIsNoBlank(v, i, next, word);
      BlankIsLeft(v, next, more);
      TailOfWord(word, more, afterRun, BlankBefore(v, i), PhraseTailEnd(v, i).value == |v|);
      FrontJoins(v, i, next, PhraseTailEnd(v, i).value);
    }
  }

  lemma WordIsNeeded(v: string, i: nat)
    requires i < |v| && !IsGapStart(v[i]) && v[i] != '<' && v[i] != '.' && PhraseTailEnd(v, i).Some?
    ensures PhraseWordEnd(v, i).Some? && i < PhraseWordEnd(v, i).value <= |v|
  {
    CfwsUnfolds(v, i);
    hide CfwsEnd, CommentEnd, PhraseWordEnd;
  }

  lemma WordIsNoBlank(v: string, i: nat, end: nat, word: PhraseWord)
    requires i < end <= |v| && v[i..end] == PhraseWordText(word) && IsPhraseWord(word)
    ensures !BlankBefore(v, end)
  {
    var text := PhraseWordText(word);
    assert v[end - 1] == text[|text| - 1];
    match word {
      case PhraseRun(_) => RunChar(text[|text| - 1]);
      case PhraseQuote(content) =>
        assert text == ("\"" + ContentText(content)) + "\"";
      case PhraseEncoded(_) => EncodedEndsInMark(text);
    }
    hide IsEncodedWord, IsPhraseQuote, ContentText;
  }

  lemma EncodedEndsInMark(text: string)
    requires IsEncodedWord(text)
    ensures text != "" && text[|text| - 1] == '='
  {
    hide IsEncodedWordToken, AllGraphic;
    var charset, encoding, inside :| IsEncodedWordOf(text, charset, encoding, inside);
    assert text == ("=?" + charset + "?" + encoding + "?" + inside) + "?=";
  }

  lemma BlankIsLeft(v: string, i: nat, more: Tail)
    requires i <= |v| && (i == |v| ==> more.TailEnd?)
    requires i < |v| && IsWsp(v[i]) ==> more.TailGap? && more.gap.Blank?
    ensures (i == |v| || IsWsp(v[i])) && (i == |v| ==> PhraseTailEnd(v, i) == Some(|v|)) ==>
      LeavesBlank(more, PhraseTailEnd(v, i) == Some(|v|))
  {
    if i == |v| {
      TailNothing(v);
    }
    hide PhraseTailEnd;
  }

  lemma PhraseStops(v: string, i: nat)
    requires i <= |v| && (i == |v| || v[i] == '<')
    ensures PhraseTailEnd(v, i) == Some(i)
  {
    if i == |v| {
      TailNothing(v);
    } else {
      BracketIsNoGap();
      TailStep(v, i);
    }
    hide PhraseTailEnd;
  }

  lemma DotIsNoBlank(v: string, i: nat)
    requires i < |v| && (v[i] == '.' || v[i] == '>')
    ensures !BlankBefore(v, i + 1)
  {
  }

  // ---- Values

  lemma ValueOfGap(gap: Gap, more: Value, obsolete: bool, afterBlank: bool)
    requires IsGap(gap) && gap != NoGap && IsValue(more, obsolete, EndsInBlank(gap))
    ensures IsValue(ValueGap(gap, more), obsolete, afterBlank)
    ensures ValueText(ValueGap(gap, more)) == GapText(gap) + ValueText(more)
    ensures IdsIn(ValueGap(gap, more)) == IdsIn(more)
  {
    hide IsGap, GapText;
  }

  lemma ValueOfId(id: Id, more: Value, obsolete: bool, afterBlank: bool)
    requires IsId(id) && (obsolete || IsCurrent(id)) && IsValue(more, obsolete, false)
    ensures IsValue(ValueId(id, more), obsolete, afterBlank)
    ensures ValueText(ValueId(id, more)) == IdText(id) + ValueText(more)
  {
    hide IsId, IsCurrent, IdText, BareId;
  }

  lemma ValueOfPhrase(first: PhraseWord, tail: Tail, more: Value, afterBlank: bool)
    requires (more.ValueEnd? || more.ValueId?) && IsValue(more, true, false)
    requires IsTail(TailWord(first, tail), false, afterBlank, more.ValueEnd?)
    ensures IsValue(ValuePhrase(first, tail, more), true, afterBlank)
    ensures ValueText(ValuePhrase(first, tail, more)) == TailText(TailWord(first, tail)) + ValueText(more)
  {
    hide IsTail, TailText;
  }

  lemma ValueOfNothing(obsolete: bool, afterBlank: bool)
    ensures IsValue(ValueEnd, obsolete, afterBlank) && ValueText(ValueEnd) == ""
  {
  }

  /** Ends and identifiers do not look back. */
  lemma LooksBack(value: Value, obsolete: bool, afterBlank: bool)
    requires IsValue(value, obsolete, afterBlank) && (value.ValueEnd? || value.ValueId?)
    ensures IsValue(value, obsolete, false)
  {
    hide IsId, IsCurrent;
  }

  lemma {:induction false} ValueIsWritten(v: string, i: nat, obsolete: bool) returns (value: Value)
    requires i <= |v| && ParseIds(v, i, obsolete).Some?
    ensures IsValue(value, obsolete, BlankBefore(v, i)) && v[i..] == ValueText(value)
    ensures (i == |v| <==> value.ValueEnd?) && (i < |v| && v[i] == '<' ==> value.ValueId?)
    decreases |v| - i, 1
  {
    hide *;
    if CfwsEnd(v, i).None? {
      ParseRejects(v, i, obsolete);
    }
    var gap := GapIsThere(v, i);
    var next := CfwsEnd(v, i).value;
    ParseSame(v, i, next, obsolete);
    BracketIsNoWord(v, i);
    if gap == NoGap {
      value := ValueFromHere(v, i, obsolete);
    } else {
      var more := ValueFromHere(v, next, obsolete);
      value := ValueGap(gap, more);
      ValueOfGap(gap, more, obsolete, BlankBefore(v, i));
      TailSplits(v, i, next);
      GapIsSome(v, i, next, gap);
    }
  }

  lemma BracketIsNoWord(v: string, i: nat)
    requires i <= |v|
    ensures i < |v| && v[i] == '<' ==> CfwsEnd(v, i) == Some(i)
  {
  }

  lemma GapIsSome(v: string, i: nat, next: nat, gap: Gap)
    requires i <= next <= |v| && v[i..next] == GapText(gap) && next != i
    ensures i < |v|
  {
  }

  lemma TailSplits(v: string, i: nat, k: nat)
    requires i <= k <= |v|
    ensures v[i..] == v[i..k] + v[k..]
  {
  }

  lemma PhraseIsNeeded(v: string, i: nat)
    requires i < |v| && PhraseEnd(v, i).Some?
    ensures PhraseWordEnd(v, i).Some? && i < PhraseWordEnd(v, i).value <= PhraseEnd(v, i).value <= |v|
    ensures PhraseTailEnd(v, PhraseWordEnd(v, i).value) == PhraseEnd(v, i)
  {
    hide PhraseWordEnd, PhraseTailEnd;
  }

  lemma IdGoesOn(v: string, start: nat)
    requires IdEnd(v, start).Some?
    ensures start <= IdEnd(v, start).value < |v| && v[IdEnd(v, start).value] == '>'
  {
    hide LexRun;
  }

  lemma ParsedMore(v: string, i: nat, end: nat, obsolete: bool)
    requires i < |v| && CfwsEnd(v, i) == Some(i) && v[i] == '<' && IdEnd(v, i + 1) == Some(end) && end < |v|
    requires ParseIds(v, i, obsolete).Some? && i <= end
    ensures ParseIds(v, end + 1, obsolete).Some?
  {
    hide *;
    ParseStep(v, i, i, obsolete);
    PrependIsSome(Canonical(v[i..end + 1], obsolete), ParseIds(v, end + 1, obsolete));
  }

  lemma PrependIsSome(id: Option<string>, rest: Option<seq<string>>)
    ensures id.Some? && Prepend([id.value], rest).Some? ==> rest.Some?
  {
  }

  lemma IdIsWritten(text: string, obsolete: bool) returns (id: Id)
    requires Canonical(text, obsolete).Some?
    ensures IsId(id) && IdText(id) == text && (obsolete || IsCurrent(id))
  {
    hide *;
    if obsolete {
      id := AcceptedIdIsWritten(text);
    } else {
      StrictAcceptanceIsExact(text, Canonical(text, false).value);
      id :| IsId(id) && IsCurrent(id) && IdText(id) == text;
    }
  }

  lemma {:induction false} ValueFromHere(v: string, i: nat, obsolete: bool) returns (value: Value)
    requires i <= |v| && ParseIds(v, i, obsolete).Some? && CfwsEnd(v, i) == Some(i)
    ensures IsValue(value, obsolete, BlankBefore(v, i)) && v[i..] == ValueText(value)
    ensures (i == |v| <==> value.ValueEnd?) && (i < |v| && v[i] == '<' ==> value.ValueId?)
    decreases |v| - i, 0
  {
    hide *;
    ParseStep(v, i, i, obsolete);
    if i == |v| {
      value := ValueEnd;
      ValueOfNothing(obsolete, BlankBefore(v, i));
      assert |v[i..]| == 0;
    } else if v[i] == '<' {
      var end := IdEnd(v, i + 1).value;
      IdGoesOn(v, i + 1);
      var id := IdIsWritten(v[i..end + 1], obsolete);
      ParsedMore(v, i, end, obsolete);
      var more := ValueIsWritten(v, end + 1, obsolete);
      value := ValueId(id, more);
      DotIsNoBlank(v, end);
      ValueOfId(id, more, obsolete, BlankBefore(v, i));
      TailSplits(v, i, end + 1);
    } else {
      PhraseIsNeeded(v, i);
      var first := PhraseWordIsWritten(v, i);
      var next := PhraseWordEnd(v, i).value;
      var tail := TailIsWritten(v, next, first.PhraseRun?);
      var end := PhraseEnd(v, i).value;
      WordIsNoBlank(v, i, next, first);
      BlankIsLeft(v, next, tail);
      TailOfWord(first, tail, false, BlankBefore(v, i), end == |v|);
      FrontJoins(v, i, next, end);
      var more := ValueIsWritten(v, end, obsolete);
      LooksBack(more, obsolete, BlankBefore(v, end));
      value := ValuePhrase(first, tail, more);
      ValueOfPhrase(first, tail, more, BlankBefore(v, i));
      TailSplits(v, i, end);
    }
  }

  // ---- Fields

  lemma {:induction false} FieldIsWritten(texts: seq<string>, obsolete: bool) returns (values: seq<Value>)
    requires TokensOf(texts, obsolete).Some?
    ensures AreValues(values, obsolete) && TextsOf(values) == texts
    decreases |texts|
  {
    hide IsValue, ParseIds, ValueText, IsHeaderText;
    if texts == [] {
      values := [];
    } else {
      var text := texts[0];
      var first := ValueIsWritten(text, 0, obsolete);
      assert text[0..] == text;
      var rest := FieldIsWritten(texts[1..], obsolete);
      values := [first] + rest;
      assert TextsOf(values)[1..] == TextsOf(rest);
      assert TextsOf(values) == [ValueText(first)] + TextsOf(rest);
    }
  }

  /** The values of a field are read, in either mode, exactly if they are texts of
      its grammar, and then as the identifiers in them. */
  lemma ReadingIsExact(texts: seq<string>, obsolete: bool, ids: seq<string>)
    ensures TokensOf(texts, obsolete) == Some(ids) <==>
      exists values :: AreValues(values, obsolete) && TextsOf(values) == texts && AllIdsIn(values) == ids
  {
    hide *;
    if TokensOf(texts, obsolete) == Some(ids) {
      var values := FieldIsWritten(texts, obsolete);
      WrittenFieldIsRead(values, obsolete);
    }
    if values :| AreValues(values, obsolete) && TextsOf(values) == texts && AllIdsIn(values) == ids {
      WrittenFieldIsRead(values, obsolete);
    }
  }
}
