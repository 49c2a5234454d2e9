// Reading a threading header's value: identifiers between comments, white
// space and the obsolete phrases of section 4.5.4 of RFC 5322.
module IdSequence {
  import opened MailText
  import opened IdScanners
  import opened IdCanonical
  import opened EncodedWordSyntax

  // ---- Obsolete phrases

  /** An encoded-word of section 2 of RFC 2047, kept opaque. */
  function EncodedWordEnd(v: string, i: nat): (r: Option<nat>)
    requires i + 2 <= |v|
    ensures r.Some? ==> i < r.value <= |v|
  {
    if i != 0 && !IsWsp(v[i - 1]) then None else
    var charsetEnd := Find(v, i + 2, '?');
    if charsetEnd.None? || !IsEncodedWordToken(v[i + 2..charsetEnd.value], true) then None else
    var encodingEnd := Find(v, charsetEnd.value + 1, '?');
    if encodingEnd.None? || !IsEncodedWordToken(v[charsetEnd.value + 1..encodingEnd.value], false) then None else
    var textStart := encodingEnd.value + 1;
    var textEnd := Find(v, textStart, '?');
    if textEnd.None? || textEnd.value + 1 >= |v| || v[textEnd.value + 1] != '=' || textEnd.value == textStart then None
    else if !AllGraphic(v[textStart..textEnd.value]) then None
    else
      var end := textEnd.value + 2;
      if end - i > 75 then None
      else if end < |v| && !IsWsp(v[end]) then None
      else Some(end)
  }

  /** An encoded word with nothing but white space or the ends of the value beside it. */
  ghost predicate IsEncodedWordAt(v: string, i: nat, end: nat) {
    && i <= end <= |v| && IsEncodedWord(v[i..end])
    && (i == 0 || IsWsp(v[i - 1])) && (end == |v| || IsWsp(v[end]))
  }

  /** The scanner finds the end of exactly the encoded words that stand alone. */
  lemma EncodedWordIsExact(v: string, i: nat, end: nat)
    requires i + 2 <= |v| && v[i] == '=' && v[i + 1] == '?'
    ensures EncodedWordEnd(v, i) == Some(end) <==> IsEncodedWordAt(v, i, end)
  {
    if EncodedWordEnd(v, i) == Some(end) {
      FoundIsEncodedWord(v, i, end);
    }
    if IsEncodedWordAt(v, i, end) {
      EncodedWordIsFound(v, i, end);
    }
    hide *;
  }

  lemma WordOfParts(v: string, i: nat, a: nat, b: nat, c: nat)
    requires i + 2 <= a < b < c && c + 2 <= |v| && v[i] == '=' && v[i + 1] == '?'
    requires v[a] == '?' && v[b] == '?' && v[c] == '?' && v[c + 1] == '='
    ensures v[i..c + 2] == "=?" + v[i + 2..a] + "?" + v[a + 1..b] + "?" + v[b + 1..c] + "?="
  {
    assert v[i..a] == "=?" + v[i + 2..a];
    assert v[i..a + 1] == v[i..a] + "?";
    assert v[i..b] == v[i..a + 1] + v[a + 1..b];
    assert v[i..b + 1] == v[i..b] + "?";
    assert v[i..c] == v[i..b + 1] + v[b + 1..c];
    assert v[i..c + 2] == v[i..c] + "?=";
  }

  /** The scan, once it is known where the question marks are. */
  lemma EncodedWordUnfolds(v: string, i: nat, a: nat, b: nat, c: nat)
    requires i + 2 <= a < b < c < |v|
    requires Find(v, i + 2, '?') == Some(a) && Find(v, a + 1, '?') == Some(b) && Find(v, b + 1, '?') == Some(c)
    ensures EncodedWordEnd(v, i) ==
      if (i == 0 || IsWsp(v[i - 1]))
         && IsEncodedWordToken(v[i + 2..a], true) && IsEncodedWordToken(v[a + 1..b], false)
         && c + 1 < |v| && v[c + 1] == '=' && c != b + 1 && AllGraphic(v[b + 1..c])
         && c + 2 - i <= 75 && (c + 2 == |v| || IsWsp(v[c + 2]))
      then Some(c + 2) else None
  {
    hide Find, IsEncodedWordToken, AllGraphic, IsWsp;
  }

  lemma MarksAreFound(v: string, i: nat) returns (a: nat, b: nat, c: nat)
    requires i + 2 <= |v| && EncodedWordEnd(v, i).Some?
    ensures i + 2 <= a < b < c < |v|
    ensures Find(v, i + 2, '?') == Some(a) && Find(v, a + 1, '?') == Some(b) && Find(v, b + 1, '?') == Some(c)
  {
    hide Find, IsEncodedWordToken, AllGraphic, IsWsp;
    a := Find(v, i + 2, '?').value;
    b := Find(v, a + 1, '?').value;
    c := Find(v, b + 1, '?').value;
  }

  lemma FoundIsEncodedWord(v: string, i: nat, end: nat)
    requires i + 2 <= |v| && v[i] == '=' && v[i + 1] == '?' && EncodedWordEnd(v, i) == Some(end)
    ensures IsEncodedWordAt(v, i, end)
  {
    hide EncodedWordEnd, Find, IsEncodedWordToken, AllGraphic, IsWsp;
    var a, b, c := MarksAreFound(v, i);
    EncodedWordUnfolds(v, i, a, b, c);
    FindIsFirst(v, b + 1, '?');
    WordOfParts(v, i, a, b, c);
    assert IsEncodedWordOf(v[i..end], v[i + 2..a], v[a + 1..b], v[b + 1..c]);
  }

  lemma PartsOf(v: string, i: nat, end: nat) returns (charset: string, encoding: string, text: string)
    requires IsEncodedWordAt(v, i, end)
    ensures i <= end <= |v|
    ensures IsEncodedWordToken(charset, true) && IsEncodedWordToken(encoding, false)
    ensures text != "" && AllGraphic(text) && forall k | 0 <= k < |text| :: text[k] != '?'
    ensures v[i..end] == "=?" + charset + "?" + encoding + "?" + text + "?="
    ensures end - i <= 75 && (i == 0 || IsWsp(v[i - 1])) && (end == |v| || IsWsp(v[end]))
  {
    hide IsEncodedWordToken, AllGraphic, IsWsp;
    charset, encoding, text :| IsEncodedWordOf(v[i..end], charset, encoding, text);
  }

  lemma EncodedWordIsFound(v: string, i: nat, end: nat)
    requires i + 2 <= |v| && IsEncodedWordAt(v, i, end)
    ensures EncodedWordEnd(v, i) == Some(end)
  {
    hide *;
    var charset, encoding, text := PartsOf(v, i, end);
    PartsAreAt(v, i, end, charset, encoding, text);
    var a := i + 2 + |charset|;
    var b := a + 1 + |encoding|;
    var c := b + 1 + |text|;
    MarkEndsToken(v, i + 2, a, true);
    MarkEndsToken(v, a + 1, b, false);
    FindPiece(v, b + 1, text);
    EncodedWordUnfolds(v, i, a, b, c);
  }

  function PhraseQuotedEnd(v: string, i: nat): (r: Option<nat>)
    requires i <= |v|
    ensures r.Some? ==> i < r.value <= |v|
    decreases |v| - i
  {
    if i == |v| then None
    else if v[i] == '\\' then
      if i + 1 < |v| && IsQuotedPairChar(v[i + 1]) then PhraseQuotedEnd(v, i + 2) else None
    else if v[i] == '"' then Some(i + 1)
    else if IsQuotedText(v[i]) || (!IsAscii(v[i]) && !IsControl(v[i])) then PhraseQuotedEnd(v, i + 1)
    else None
  }

  function PhraseAtomEnd(v: string, i: nat): (r: Option<nat>)
    requires i <= |v|
    ensures r.Some? ==> i <= r.value <= |v|
    decreases |v| - i
  {
    if i == |v| || (IsAscii(v[i]) && !IsAtext(v[i])) then Some(i)
    else if IsControl(v[i]) then None
    else PhraseAtomEnd(v, i + 1)
  }

  function PhraseWordEnd(v: string, i: nat): (r: Option<nat>)
    requires i <= |v|
    ensures r.Some? ==> i < r.value <= |v|
  {
    if i + 2 <= |v| && v[i] == '=' && v[i + 1] == '?' then EncodedWordEnd(v, i)
    else if i < |v| && v[i] == '"' then PhraseQuotedEnd(v, i + 1)
    else
      var end := PhraseAtomEnd(v, i);
      if end == Some(i) then None else end
  }

  function PhraseTailEnd(v: string, i: nat): (r: Option<nat>)
    requires i <= |v|
    ensures r.Some? ==> i <= r.value <= |v|
    decreases |v| - i
  {
    var next := CfwsEnd(v, i);
    if next.None? || next.value == |v| || v[next.value] == '<' then next
    else if v[next.value] == '.' then PhraseTailEnd(v, next.value + 1)
    else
      var word := PhraseWordEnd(v, next.value);
      if word.None? then None else PhraseTailEnd(v, word.value)
  }

  function PhraseEnd(v: string, i: nat): (r: Option<nat>)
    requires i <= |v|
    ensures r.Some? ==> i < r.value <= |v|
  {
    var word := PhraseWordEnd(v, i);
    if word.None? then None else PhraseTailEnd(v, word.value)
  }

  // ---- The sequence

  function Prepend(ids: seq<string>, rest: Option<seq<string>>): Option<seq<string>> {
    if rest.None? then None else Some(ids + rest.value)
  }

  lemma PrependNothing(rest: Option<seq<string>>)
    ensures Prepend([], rest) == rest
  {
    if rest.Some? {
      assert [] + rest.value == rest.value;
    }
  }

  lemma PrependTwice(a: seq<string>, b: seq<string>, rest: Option<seq<string>>)
    ensures Prepend(a, Prepend(b, rest)) == Prepend(a + b, rest)
  {
    if rest.Some? {
      assert a + (b + rest.value) == a + b + rest.value;
    }
  }

  ghost function ParseIds(v: string, i: nat, obsolete: bool): Option<seq<string>>
    requires i <= |v|
    decreases |v| - i
  {
    var start := CfwsEnd(v, i);
    if start.None? then None
    else if start.value == |v| then Some([])
    else if v[start.value] != '<' then
      if !obsolete then None else
      var next := PhraseEnd(v, start.value);
      if next.None? then None else ParseIds(v, next.value, obsolete)
    else
      var end := IdEnd(v, start.value + 1);
      if end.None? then None else
      var id := Canonical(v[start.value..end.value + 1], obsolete);
      if id.None? then None else Prepend([id.value], ParseIds(v, end.value + 1, obsolete))
  }

  /** The identifiers of a field's values, parsed one after the other. */
  ghost function TokensOf(values: seq<string>, obsolete: bool): Option<seq<string>> {
    if values == [] then Some([])
    else if !IsHeaderText(values[0]) then None
    else
      var first := ParseIds(values[0], 0, obsolete);
      if first.None? then None else Prepend(first.value, TokensOf(values[1..], obsolete))
  }

  /** The three things a parse can meet after comments and white space. */
  lemma ParseStep(v: string, i: nat, start: nat, obsolete: bool)
    requires i <= |v| && CfwsEnd(v, i) == Some(start)
    ensures start == |v| ==> ParseIds(v, i, obsolete) == Some([])
    ensures start < |v| && v[start] != '<' ==>
      ParseIds(v, i, obsolete) ==
      if !obsolete || PhraseEnd(v, start).None? then None else ParseIds(v, PhraseEnd(v, start).value, obsolete)
    ensures start < |v| && v[start] == '<' ==>
      ParseIds(v, i, obsolete) ==
      var end := IdEnd(v, start + 1);
      if end.None? then None else
      var id := Canonical(v[start..end.value + 1], obsolete);
      if id.None? then None else Prepend([id.value], ParseIds(v, end.value + 1, obsolete))
  {
    hide Canonical, PhraseEnd, Prepend;
  }

  lemma ParseRejects(v: string, i: nat, obsolete: bool)
    requires i <= |v|
    ensures CfwsEnd(v, i).None? ==> ParseIds(v, i, obsolete).None?
  {
  }

  lemma ParseNothing(v: string, obsolete: bool)
    ensures ParseIds(v, |v|, obsolete) == Some([])
  {
  }

  /** In canonical form, and read as itself. */
  ghost predicate IsFixed(id: string, obsolete: bool) {
    IsCanonicalId(id) && Canonical(id, obsolete) == Some(id)
  }

  ghost predicate AllFixed(ids: seq<string>, obsolete: bool) {
    forall k | 0 <= k < |ids| :: IsFixed(ids[k], obsolete)
  }

  lemma AllFixedNone(obsolete: bool)
    ensures AllFixed([], obsolete)
  {
  }

  lemma AllFixedSingle(id: string, obsolete: bool)
    requires IsFixed(id, obsolete)
    ensures AllFixed([id], obsolete)
  {
  }

  lemma AllFixedConcat(a: seq<string>, b: seq<string>, obsolete: bool)
    requires AllFixed(a, obsolete) && AllFixed(b, obsolete)
    ensures AllFixed(a + b, obsolete)
  {
  }

  lemma CanonicalIsFixedText(value: string, obsolete: bool, id: string)
    requires Canonical(value, obsolete) == Some(id)
    ensures IsFixed(id, obsolete)
  {
    CanonicalIsIdempotent(value, obsolete);
  }

  /** Every identifier a parse yields is in canonical form for its mode. */
  lemma {:induction false} ParsedIdsAreFixed(v: string, i: nat, obsolete: bool)
    requires i <= |v| && ParseIds(v, i, obsolete).Some?
    ensures AllFixed(ParseIds(v, i, obsolete).value, obsolete)
    decreases |v| - i
  {
    hide ParseIds, Canonical, IsFixed, PhraseEnd, AllFixed;
    ParseRejects(v, i, obsolete);
    var start := CfwsEnd(v, i).value;
    ParseStep(v, i, start, obsolete);
    if start < |v| {
      if v[start] != '<' {
        ParsedIdsAreFixed(v, PhraseEnd(v, start).value, obsolete);
      } else {
        var end := IdEnd(v, start + 1).value;
        var id := Canonical(v[start..end + 1], obsolete).value;
        CanonicalIsFixedText(v[start..end + 1], obsolete, id);
        ParsedIdsAreFixed(v, end + 1, obsolete);
        AllFixedSingle(id, obsolete);
        AllFixedConcat([id], ParseIds(v, end + 1, obsolete).value, obsolete);
      }
    } else {
      AllFixedNone(obsolete);
    }
  }

  lemma {:induction false} TokensAreFixed(values: seq<string>, obsolete: bool)
    requires TokensOf(values, obsolete).Some?
    ensures AllFixed(TokensOf(values, obsolete).value, obsolete)
    decreases |values|
  {
    if values != [] {
      ParsedIdsAreFixed(values[0], 0, obsolete);
      TokensAreFixed(values[1..], obsolete);
      AllFixedConcat(ParseIds(values[0], 0, obsolete).value, TokensOf(values[1..], obsolete).value, obsolete);
    }
  }

  lemma {:induction false} StrictParseIsObsoleteParse(v: string, i: nat)
    requires i <= |v| && ParseIds(v, i, false).Some?
    ensures ParseIds(v, i, true) == ParseIds(v, i, false)
    decreases |v| - i
  {
    hide ParseIds, Canonical, PhraseEnd, IsCanonicalId;
    ParseRejects(v, i, false);
    var start := CfwsEnd(v, i).value;
    ParseStep(v, i, start, false);
    ParseStep(v, i, start, true);
    if start < |v| {
      var end := IdEnd(v, start + 1).value;
      StrictIsObsolete(v[start..end + 1]);
      StrictParseIsObsoleteParse(v, end + 1);
    }
  }

  /** A value the strict Message-ID syntax accepts reads the same as a threading value. */
  lemma {:induction false} StrictTokensAreObsoleteTokens(values: seq<string>)
    requires TokensOf(values, false).Some?
    ensures TokensOf(values, true) == TokensOf(values, false)
    decreases |values|
  {
    if values != [] {
      StrictParseIsObsoleteParse(values[0], 0);
      StrictTokensAreObsoleteTokens(values[1..]);
    }
  }

  // ---- The loops

  method ParseObsoleteThreadingQuotedWord(value: string, start: nat) returns (r: Option<nat>)
    requires start < |value|
    ensures r == PhraseQuotedEnd(value, start + 1)
  {
    var index := start + 1;
    while index < |value|
      invariant start < index <= |value|
      invariant PhraseQuotedEnd(value, index) == PhraseQuotedEnd(value, start + 1)
    {
      var c := value[index];
      if c == '\\' {
        index := index + 1;
        if index == |value| || (!IsWsp(value[index]) && !IsGraphic(value[index])) {
          return None;
        }
        index := index + 1;
      } else if c == '"' {
        return Some(index + 1);
      } else if IsWsp(c) || c == '!' || '#' <= c <= '[' || ']' <= c <= '~' {
        index := index + 1;
      } else if IsAscii(c) || IsControl(c) {
        return None;
      } else {
        index := index + 1;
      }
    }
    return None;
  }

  method ParseObsoleteThreadingAtom(value: string, start: nat) returns (r: Option<nat>)
    requires start <= |value|
    ensures r == if PhraseAtomEnd(value, start) == Some(start) then None else PhraseAtomEnd(value, start)
  {
    var end := start;
    while end < |value|
      invariant start <= end <= |value|
      invariant PhraseAtomEnd(value, end) == PhraseAtomEnd(value, start)
    {
      if IsAscii(value[end]) {
        if !IsAtext(value[end]) {
          break;
        }
      } else if IsControl(value[end]) {
        return None;
      }
      end := end + 1;
    }
    return if end != start then Some(end) else None;
  }

  method ParseObsoleteThreadingWord(value: string, index: nat) returns (r: Option<nat>)
    requires index <= |value|
    ensures r == PhraseWordEnd(value, index)
  {
    if index + 2 <= |value| && value[index] == '=' && value[index + 1] == '?' {
      return EncodedWordEnd(value, index);
    }
    if index < |value| && value[index] == '"' {
      r := ParseObsoleteThreadingQuotedWord(value, index);
    } else {
      r := ParseObsoleteThreadingAtom(value, index);
    }
  }

  method ParseObsoleteThreadingPhrase(value: string, start: nat) returns (r: Option<nat>)
    requires start <= |value|
    ensures r == PhraseEnd(value, start)
  {
    r := ParseObsoleteThreadingWord(value, start);
    if r.None? {
      return;
    }
    var index := r.value;
    while true
      invariant index <= |value|
      invariant PhraseTailEnd(value, index) == PhraseEnd(value, start)
      decreases |value| - index
    {
      var next := SkipMessageIdCfws(value, index);
      if next.None? {
        return None;
      }
      index := next.value;
      if index == |value| || value[index] == '<' {
        return Some(index);
      }
      if value[index] == '.' {
        index := index + 1;
        continue;
      }
      var word := ParseObsoleteThreadingWord(value, index);
      if word.None? {
        return None;
      }
      index := word.value;
    }
  }

  method ParseMessageIdSequence(value: string, obsolete: bool) returns (r: Option<seq<string>>)
    ensures r == ParseIds(value, 0, obsolete)
  {
    hide IdEnd, ParseIds, Canonical, PhraseEnd, CfwsEnd;
    var index := 0;
    var ids: seq<string> := [];
    PrependNothing(ParseIds(value, 0, obsolete));
    while index < |value|
      invariant index <= |value|
      invariant ParseIds(value, 0, obsolete) == Prepend(ids, ParseIds(value, index, obsolete))
    {
      var start := SkipMessageIdCfws(value, index);
      if start.None? {
        ParseRejects(value, index, obsolete);
        return None;
      }
      ParseStep(value, index, start.value, obsolete);
      index := start.value;
      if index == |value| {
        break;
      }
      if value[index] != '<' {
        if !obsolete {
          return None;
        }
        var next := ParseObsoleteThreadingPhrase(value, index);
        if next.None? {
          return None;
        }
        index := next.value;
        continue;
      }
      var end := FindMessageIdEnd(value, index + 1);
      if end.None? {
        return None;
      }
      var id := CanonicalMessageIdCore(value[index..end.value + 1], obsolete);
      if id.None? {
        return None;
      }
      PrependTwice(ids, [id.value], ParseIds(value, end.value + 1, obsolete));
      ids := ids + [id.value];
      index := end.value + 1;
    }
    ParseNothing(value, obsolete);
    assert ids + [] == ids;
    return Some(ids);
  }

  method MessageIdTokens(values: seq<string>, obsolete: bool) returns (r: Option<seq<string>>)
    ensures r == TokensOf(values, obsolete)
  {
    hide ParseIds, IsHeaderText;
    var tokens: seq<string> := [];
    var k := 0;
    assert values[0..] == values;
    PrependNothing(TokensOf(values, obsolete));
    while k < |values|
      invariant k <= |values|
      invariant TokensOf(values, obsolete) == Prepend(tokens, TokensOf(values[k..], obsolete))
    {
      assert values[k..][1..] == values[k + 1..];
      if !IsHeaderText(values[k]) {
        return None;
      }
      var ids := ParseMessageIdSequence(values[k], obsolete);
      if ids.None? {
        return None;
      }
      PrependTwice(tokens, ids.value, TokensOf(values[k + 1..], obsolete));
      tokens := tokens + ids.value;
      k := k + 1;
    }
    assert tokens + [] == tokens;
    return Some(tokens);
  }
}
