// The identifier grammar of RFC 5322 as the code checks it: once with the
// obsolete comments and white space still in place (sections 4.4, 4.5.4), once
// on the canonical text, and the pass that turns the first into the second.
module IdGrammar {
  import opened MailText
  import opened IdScanners

  // ---- The canonical grammar

  /** word *("." word), nothing between them. */
  predicate ValidObsIdLeft(s: string) {
    var word := WordLength(s);
    && word != 0
    && (word == |s| || (s[word] == '.' && word + 1 < |s| && ValidObsIdLeft(s[word + 1..])))
  }

  predicate ValidDotAtom(s: string) {
    && s != "" && s[0] != '.' && s[|s| - 1] != '.'
    && (forall j, k | 0 <= j < |s| && 0 <= k < |s| && k == j + 1 :: !(s[j] == '.' && s[k] == '.'))
    && (forall k | 0 <= k < |s| :: s[k] == '.' || IsAtext(s[k]))
  }

  predicate ValidLiteralContent(s: string) {
    s == "" ||
    if s[0] == '\\' then |s| > 1 && IsQuotedPairChar(s[1]) && ValidLiteralContent(s[2..])
    else IsLiteralText(s[0]) && ValidLiteralContent(s[1..])
  }

  predicate ValidNoFoldLiteral(s: string) {
    |s| >= 3 && s[0] == '[' && s[|s| - 1] == ']' && ValidLiteralContent(s[1..|s| - 1])
  }

  predicate ValidIdRight(s: string) {
    if s != "" && s[0] == '[' then ValidNoFoldLiteral(s) else ValidDotAtom(s)
  }

  // ---- The obsolete grammar, comments and white space included

  /** One word of an id-left with what surrounds it. */
  function ObsWordEnd(v: string, i: nat): (r: Option<nat>)
    requires i <= |v|
    ensures r.Some? ==> i < r.value <= |v|
  {
    var start := CfwsEnd(v, i);
    if start.None? then None else
    var word := WordLength(v[start.value..]);
    if word == 0 then None else CfwsEnd(v, start.value + word)
  }

  predicate ValidLeftWithCfws(v: string, i: nat)
    requires i <= |v|
    decreases |v| - i
  {
    var end := ObsWordEnd(v, i);
    && end.Some?
    && (end.value == |v| || (v[end.value] == '.' && end.value + 1 < |v| && ValidLeftWithCfws(v, end.value + 1)))
  }

  /** One atom of a domain with what surrounds it. */
  function ObsAtomEnd(v: string, i: nat): (r: Option<nat>)
    requires i <= |v|
    ensures r.Some? ==> i < r.value <= |v|
  {
    var start := CfwsEnd(v, i);
    if start.None? then None else
    var atom := AtomLength(v[start.value..]);
    if atom == 0 then None else CfwsEnd(v, start.value + atom)
  }

  predicate ValidDomainWithCfws(v: string, i: nat)
    requires i <= |v|
    decreases |v| - i
  {
    var end := ObsAtomEnd(v, i);
    && end.Some?
    && (end.value == |v| || (v[end.value] == '.' && end.value + 1 < |v| && ValidDomainWithCfws(v, end.value + 1)))
  }

  /** A domain literal from after its opening bracket to the end of the text. */
  predicate ValidLiteralWithCfws(v: string, i: nat, hasContent: bool)
    requires i <= |v|
    decreases |v| - i
  {
    i < |v| &&
    if v[i] == ']' then hasContent && CfwsEnd(v, i + 1) == Some(|v|)
    else if IsWsp(v[i]) then ValidLiteralWithCfws(v, i + 1, hasContent)
    else if v[i] == '\\' then
      i + 1 < |v| && IsQuotedPairChar(v[i + 1]) && ValidLiteralWithCfws(v, i + 2, true)
    else IsLiteralText(v[i]) && ValidLiteralWithCfws(v, i + 1, true)
  }

  predicate ValidRightWithCfws(v: string) {
    var start := CfwsEnd(v, 0);
    start.Some? &&
    if start.value < |v| && v[start.value] == '[' then ValidLiteralWithCfws(v, start.value + 1, false)
    else ValidDomainWithCfws(v, 0)
  }

  // ---- Removing comments and white space

  datatype StripState =
    | Broken
    | Live(quoted: bool, literal: bool, escaped: bool, depth: nat, out: string)

  function Bare(out: string): StripState {
    Live(false, false, false, 0, out)
  }

  function StripStep(s: StripState, c: char): StripState {
    match s
    case Broken => Broken
    case Live(quoted, literal, escaped, depth, out) =>
      if depth != 0 then
        if !IsCommentChar(c) then Broken
        else if escaped then s.(escaped := false)
        else if c == '\\' then s.(escaped := true)
        else if c == '(' then s.(depth := depth + 1)
        else if c == ')' then s.(depth := depth - 1)
        else s
      else if escaped then s.(escaped := false, out := out + [c])
      else if (quoted || literal) && c == '\\' then s.(escaped := true, out := out + [c])
      else if !literal && c == '"' then s.(quoted := !quoted, out := out + [c])
      else if !quoted && c == '[' then s.(literal := true, out := out + [c])
      else if literal && c == ']' then s.(literal := false, out := out + [c])
      else if !quoted && IsWsp(c) then s
      else if !quoted && !literal && c == '(' then s.(depth := 1)
      else s.(out := out + [c])
  }

  function StripRun(s: StripState, text: string): StripState
    decreases |text|
  {
    if text == "" then s else StripRun(StripStep(s, text[0]), text[1..])
  }

  /** What is left of a text without its comments and white space, if its
      quoting is balanced and its comments are well formed. */
  function Stripped(text: string): Option<string> {
    var s := StripRun(Bare(""), text);
    if s.Live? && s == Bare(s.out) then Some(s.out) else None
  }

  lemma {:induction false} StripRunConcat(s: StripState, a: string, b: string)
    ensures StripRun(s, a + b) == StripRun(StripRun(s, a), b)
    decreases |a|
  {
    if a == "" {
      assert a + b == b;
    } else {
      assert (a + b)[1..] == a[1..] + b;
      StripRunConcat(StripStep(s, a[0]), a[1..], b);
    }
  }

  lemma {:induction false} BrokenStaysBroken(text: string)
    ensures StripRun(Broken, text) == Broken
    decreases |text|
  {
    if text != "" {
      BrokenStaysBroken(text[1..]);
    }
  }

  /** A comment the skipper accepts leaves no trace; one it rejects spoils the rest. */
  lemma {:induction false} CommentIsErased(v: string, i: nat, depth: nat, out: string)
    requires i <= |v|
    ensures var s := StripRun(Live(false, false, false, depth, out), v[i..]);
      match CommentEnd(v, i, depth)
      case Some(j) => s == StripRun(Bare(out), v[j..])
      case None => s.Broken? || s.depth != 0
    decreases |v| - i
  {
    if depth != 0 && i < |v| {
      assert v[i..][1..] == v[i + 1..];
      if !IsCommentChar(v[i]) {
        BrokenStaysBroken(v[i + 1..]);
      } else if v[i] == '\\' {
        if i + 1 < |v| {
          assert v[i + 1..][1..] == v[i + 2..];
          if IsCommentChar(v[i + 1]) {
            CommentIsErased(v, i + 2, depth, out);
          } else {
            BrokenStaysBroken(v[i + 2..]);
          }
        }
      } else {
        CommentIsErased(v, i + 1, if v[i] == '(' then depth + 1 else if v[i] == ')' then depth - 1 else depth, out);
      }
    }
  }

  lemma {:induction false} CfwsIsErased(v: string, i: nat, out: string)
    requires i <= |v| && CfwsEnd(v, i).Some?
    ensures StripRun(Bare(out), v[i..]) == StripRun(Bare(out), v[CfwsEnd(v, i).value..])
    decreases |v| - i
  {
    if i < |v| {
      assert v[i..][1..] == v[i + 1..];
      if IsWsp(v[i]) {
        CfwsIsErased(v, i + 1, out);
      } else if v[i] == '(' {
        CommentIsErased(v, i + 1, 1, out);
        CfwsIsErased(v, CommentEnd(v, i + 1, 1).value, out);
      }
    }
  }

  method StripObsoleteMessageIdCfws(value: string) returns (r: Option<string>)
    ensures r == Stripped(value)
  {
    var canonical := "";
    var index := 0;
    var quoted, literal, escaped := false, false, false;
    while index < |value|
      invariant index <= |value|
      invariant StripRun(Live(quoted, literal, escaped, 0, canonical), value[index..]) == StripRun(Bare(""), value)
      invariant escaped ==> quoted || literal
    {
      var c := value[index];
      assert value[index..][1..] == value[index + 1..];
      if escaped {
        canonical := canonical + [c];
        escaped := false;
        index := index + 1;
        continue;
      }
      if (quoted || literal) && c == '\\' {
        canonical := canonical + [c];
        escaped := true;
        index := index + 1;
        continue;
      }
      if !literal && c == '"' {
        quoted := !quoted;
        canonical := canonical + [c];
        index := index + 1;
        continue;
      }
      if !quoted && c == '[' {
        literal := true;
        canonical := canonical + [c];
        index := index + 1;
        continue;
      }
      if literal && c == ']' {
        literal := false;
        canonical := canonical + [c];
        index := index + 1;
        continue;
      }
      if !quoted && IsWsp(c) {
        index := index + 1;
        continue;
      }
      if !quoted && !literal && c == '(' {
        CommentIsErased(value, index + 1, 1, canonical);
        var next := SkipObsoleteMessageIdComment(value, index);
        if next.None? {
          return None;
        }
        index := next.value;
        continue;
      }
      canonical := canonical + [c];
      index := index + 1;
    }
    if quoted || literal || escaped {
      return None;
    }
    return Some(canonical);
  }

  // ---- The validators' loops

  lemma LeftUnfolds(s: string, i: nat)
    requires i <= |s|
    ensures ValidObsIdLeft(s[i..]) <==>
      var word := WordLength(s[i..]);
      && word != 0
      && (i + word == |s|
          || (s[i + word] == '.' && i + word + 1 < |s| && ValidObsIdLeft(s[i + word + 1..])))
  {
    var word := WordLength(s[i..]);
    if i + word < |s| {
      assert s[i..][word + 1..] == s[i + word + 1..];
    }
    hide WordLength;
  }

  lemma NothingIsNoHalf()
    ensures !ValidObsIdLeft("") && !ValidLeftWithCfws("", 0) && !ValidRightWithCfws("")
  {
  }

  method ValidObsIdLeftScan(value: string) returns (valid: bool)
    ensures valid == ValidObsIdLeft(value)
  {
    hide ValidObsIdLeft, WordLength;
    NothingIsNoHalf();
    assert value[0..] == value;
    if value == "" {
      return false;
    }
    var index := 0;
    while true
      invariant index <= |value|
      invariant ValidObsIdLeft(value[index..]) == ValidObsIdLeft(value)
      decreases |value| - index
    {
      LeftUnfolds(value, index);
      var next := ParseIdLeftWord(value, index);
      if next.None? {
        return false;
      }
      index := next.value;
      if index == |value| {
        return true;
      }
      if value[index] != '.' {
        return false;
      }
      index := index + 1;
      if index == |value| {
        return false;
      }
    }
  }

  method ParseIdLeftWord(value: string, index: nat) returns (r: Option<nat>)
    requires index <= |value|
    ensures r == Past(index, WordLength(value[index..]))
  {
    if index < |value| && value[index] == '"' {
      r := ParseQuotedIdWord(value, index);
    } else {
      r := ParseIdLeftAtom(value, index);
    }
  }

  method ParseObsIdLeftWord(value: string, index: nat) returns (r: Option<nat>)
    requires index <= |value|
    ensures r == ObsWordEnd(value, index)
  {
    var start := SkipObsoleteMessageIdCfws(value, index);
    if start.None? || start.value == |value| {
      return None;
    }
    var next := ParseIdLeftWord(value, start.value);
    if next.None? {
      return None;
    }
    r := SkipObsoleteMessageIdCfws(value, next.value);
  }

  method ParseObsDomainAtom(value: string, index: nat) returns (r: Option<nat>)
    requires index <= |value|
    ensures r == ObsAtomEnd(value, index)
  {
    var start := SkipObsoleteMessageIdCfws(value, index);
    if start.None? {
      return None;
    }
    var next := ParseIdLeftAtom(value, start.value);
    if next.None? {
      return None;
    }
    r := SkipObsoleteMessageIdCfws(value, next.value);
  }

  lemma LeftWithCfwsUnfolds(v: string, i: nat)
    requires i <= |v|
    ensures ValidLeftWithCfws(v, i) <==>
      var end := ObsWordEnd(v, i);
      && end.Some?
      && (end.value == |v| || (v[end.value] == '.' && end.value + 1 < |v| && ValidLeftWithCfws(v, end.value + 1)))
  {
    hide ObsWordEnd;
  }

  lemma DomainUnfolds(v: string, i: nat)
    requires i <= |v|
    ensures ValidDomainWithCfws(v, i) <==>
      var end := ObsAtomEnd(v, i);
      && end.Some?
      && (end.value == |v| || (v[end.value] == '.' && end.value + 1 < |v| && ValidDomainWithCfws(v, end.value + 1)))
  {
    hide ObsAtomEnd;
  }

  lemma RightUnfolds(v: string)
    ensures ValidRightWithCfws(v) <==>
      var start := CfwsEnd(v, 0);
      start.Some? &&
      if start.value < |v| && v[start.value] == '[' then ValidLiteralWithCfws(v, start.value + 1, false)
      else ValidDomainWithCfws(v, 0)
  {
    hide CfwsEnd, ValidLiteralWithCfws, ValidDomainWithCfws;
  }

  method ValidObsIdLeftWithCfws(value: string) returns (valid: bool)
    ensures valid == ValidLeftWithCfws(value, 0)
  {
    hide ValidLeftWithCfws, ObsWordEnd;
    NothingIsNoHalf();
    if value == "" {
      return false;
    }
    var index := 0;
    while true
      invariant index <= |value|
      invariant ValidLeftWithCfws(value, index) == ValidLeftWithCfws(value, 0)
      decreases |value| - index
    {
      LeftWithCfwsUnfolds(value, index);
      var next := ParseObsIdLeftWord(value, index);
      if next.None? {
        return false;
      }
      index := next.value;
      if index == |value| {
        return true;
      }
      if value[index] != '.' {
        return false;
      }
      index := index + 1;
      if index == |value| {
        return false;
      }
    }
  }

  method ValidObsIdRightWithCfws(value: string) returns (valid: bool)
    ensures valid == ValidRightWithCfws(value)
  {
    hide ValidRightWithCfws, ValidDomainWithCfws, ValidLiteralWithCfws, ObsAtomEnd, CfwsEnd;
    NothingIsNoHalf();
    RightUnfolds(value);
    if value == "" {
      return false;
    }
    var start := SkipObsoleteMessageIdCfws(value, 0);
    if start.None? {
      return false;
    }
    if start.value < |value| && value[start.value] == '[' {
      valid := ValidObsDomainLiteral(value, start.value);
      return;
    }
    var index := 0;
    while true
      invariant index <= |value|
      invariant ValidDomainWithCfws(value, index) == ValidDomainWithCfws(value, 0)
      decreases |value| - index
    {
      DomainUnfolds(value, index);
      var next := ParseObsDomainAtom(value, index);
      if next.None? {
        return false;
      }
      index := next.value;
      if index == |value| {
        return true;
      }
      if value[index] != '.' {
        return false;
      }
      index := index + 1;
      if index == |value| {
        return false;
      }
    }
  }

  method ValidObsDomainLiteral(value: string, start: nat) returns (valid: bool)
    requires start < |value|
    ensures valid == ValidLiteralWithCfws(value, start + 1, false)
  {
    var index := start + 1;
    var hasContent := false;
    while index < |value|
      invariant start < index <= |value|
      invariant ValidLiteralWithCfws(value, index, hasContent) == ValidLiteralWithCfws(value, start + 1, false)
    {
      var c := value[index];
      if c == ']' {
        if !hasContent {
          return false;
        }
        var end := SkipObsoleteMessageIdCfws(value, index + 1);
        return end == Some(|value|);
      } else if IsWsp(c) {
        index := index + 1;
      } else if c == '\\' {
        if index + 1 == |value| {
          return false;
        }
        if !IsWsp(value[index + 1]) && !IsGraphic(value[index + 1]) {
          return false;
        }
        hasContent := true;
        index := index + 2;
      } else if '!' <= c <= 'Z' || '^' <= c <= '~' {
        hasContent := true;
        index := index + 1;
      } else {
        return false;
      }
    }
    return false;
  }

  method ValidNoFoldLiteralScan(value: string) returns (valid: bool)
    ensures valid == ValidNoFoldLiteral(value)
  {
    if |value| < 3 || value[0] != '[' || value[|value| - 1] != ']' {
      return false;
    }
    var content := value[1..|value| - 1];
    var index := 0;
    while index < |content|
      invariant index <= |content|
      invariant ValidLiteralContent(content[index..]) == ValidLiteralContent(content)
    {
      assert content[index..][1..] == content[index + 1..];
      if content[index] == '\\' {
        index := index + 1;
        if index == |content| || !(IsWsp(content[index]) || IsGraphic(content[index])) {
          return false;
        }
        assert content[index - 1..][2..] == content[index + 1..];
      } else if !('!' <= content[index] <= 'Z' || '^' <= content[index] <= '~') {
        return false;
      }
      index := index + 1;
    }
    return true;
  }
}
