// The scanners of Message-ID text (crates/notm-mail/src/rfc5322.rs): the loops
// over a moving index, each tied to a function of the text that is left.
module IdScanners {
  import opened MailText

  // ---- What the scanners consume, as lengths of a prefix

  /** Where a comment closes, given a position inside it and its depth there. */
  function CommentEnd(v: string, i: nat, depth: nat): (r: Option<nat>)
    requires i <= |v|
    ensures r.Some? ==> i <= r.value <= |v|
    decreases |v| - i
  {
    if depth == 0 then Some(i)
    else if i == |v| || !IsCommentChar(v[i]) then None
    else if v[i] == '\\' then
      if i + 1 == |v| || !IsCommentChar(v[i + 1]) then None else CommentEnd(v, i + 2, depth)
    else
      CommentEnd(v, i + 1, if v[i] == '(' then depth + 1 else if v[i] == ')' then depth - 1 else depth)
  }

  /** Where the comments and white space at a position end. */
  function CfwsEnd(v: string, i: nat): (r: Option<nat>)
    requires i <= |v|
    ensures r.Some? ==> i <= r.value <= |v|
    ensures r.Some? && r.value < |v| ==> !IsWsp(v[r.value]) && v[r.value] != '('
    decreases |v| - i
  {
    if i == |v| then Some(i)
    else if IsWsp(v[i]) then CfwsEnd(v, i + 1)
    else if v[i] != '(' then Some(i)
    else
      var comment := CommentEnd(v, i + 1, 1);
      if comment.None? then None else CfwsEnd(v, comment.value)
  }

  /** The length of the run of atext a text starts with. */
  function AtomLength(s: string): (n: nat)
    ensures n <= |s|
  {
    if s == "" || !IsAtext(s[0]) then 0 else 1 + AtomLength(s[1..])
  }

  /** It is a run of atext, and the longest. */
  lemma {:induction false} AtomIsMaximal(s: string)
    ensures var n := AtomLength(s);
      (forall k | 0 <= k < n :: IsAtext(s[k])) && (n < |s| ==> !IsAtext(s[n]))
    decreases |s|
  {
    if s != "" && IsAtext(s[0]) {
      AtomIsMaximal(s[1..]);
      forall k | 0 <= k < AtomLength(s)
        ensures IsAtext(s[k])
      {
        if k > 0 {
          assert s[k] == s[1..][k - 1];
        }
      }
    }
  }

  /** The length of a quoted-string's remainder, its closing quote included;
      nothing if it does not close. */
  function QuotedLength(s: string, escaped: bool): (n: nat)
    ensures n <= |s|
  {
    if s == "" then 0
    else if !escaped && s[0] == '"' then 1
    else if !IsQuotedPairChar(s[0]) then 0
    else
      var rest := QuotedLength(s[1..], !escaped && s[0] == '\\');
      if rest == 0 then 0 else 1 + rest
  }

  /** The length of one word of an id-left, an atom or a quoted-string; nothing
      if there is none. */
  function WordLength(s: string): (n: nat)
    ensures n <= |s|
  {
    if s != "" && s[0] == '"' then
      var rest := QuotedLength(s[1..], false);
      if rest == 0 then 0 else 1 + rest
    else AtomLength(s)
  }

  /** An offset past what was consumed, if anything was. */
  function Past(index: nat, length: nat): Option<nat> {
    if length == 0 then None else Some(index + length)
  }

  // ---- The scanners

  method SkipObsoleteMessageIdComment(value: string, start: nat) returns (r: Option<nat>)
    requires start < |value|
    ensures r == CommentEnd(value, start + 1, 1)
  {
    var depth := 1;
    var index := start + 1;
    while depth != 0
      invariant start + 1 <= index <= |value|
      invariant CommentEnd(value, index, depth) == CommentEnd(value, start + 1, 1)
      decreases |value| - index
    {
      if index == |value| {
        return None;
      }
      var c := value[index];
      if !IsAscii(c) {
        if IsControl(c) {
          return None;
        }
        index := index + 1;
        continue;
      }
      if c == '\\' {
        index := index + 1;
        if index == |value| {
          return None;
        }
        var escaped := value[index];
        if IsAscii(escaped) {
          if !IsQuotedPairChar(escaped) {
            return None;
          }
        } else if IsControl(escaped) {
          return None;
        }
      } else if c == '(' {
        depth := depth + 1;
      } else if c == ')' {
        depth := depth - 1;
      } else if !(IsWsp(c) || '!' <= c <= '~') {
        return None;
      }
      index := index + 1;
    }
    return Some(index);
  }

  method SkipObsoleteMessageIdCfws(value: string, start: nat) returns (r: Option<nat>)
    requires start <= |value|
    ensures r == CfwsEnd(value, start)
  {
    var index := start;
    while true
      invariant start <= index <= |value|
      invariant CfwsEnd(value, index) == CfwsEnd(value, start)
      decreases |value| - index
    {
      while index < |value| && IsWsp(value[index])
        invariant start <= index <= |value|
        invariant CfwsEnd(value, index) == CfwsEnd(value, start)
      {
        index := index + 1;
      }
      if index == |value| || value[index] != '(' {
        return Some(index);
      }
      var next := SkipObsoleteMessageIdComment(value, index);
      if next.None? {
        return None;
      }
      index := next.value;
    }
  }

  lemma CfwsUnfolds(v: string, i: nat)
    requires i <= |v|
    ensures CfwsEnd(v, i) ==
      if i == |v| then Some(i)
      else if IsWsp(v[i]) then CfwsEnd(v, i + 1)
      else if v[i] != '(' then Some(i)
      else if CommentEnd(v, i + 1, 1).None? then None
      else CfwsEnd(v, CommentEnd(v, i + 1, 1).value)
  {
  }

  lemma CommentUnfolds(v: string, i: nat, depth: nat)
    requires i <= |v|
    ensures CommentEnd(v, i, depth) ==
      if depth == 0 then Some(i)
      else if i == |v| || !IsCommentChar(v[i]) then None
      else if v[i] == '\\' then
        if i + 1 == |v| || !IsCommentChar(v[i + 1]) then None else CommentEnd(v, i + 2, depth)
      else
        CommentEnd(v, i + 1, if v[i] == '(' then depth + 1 else if v[i] == ')' then depth - 1 else depth)
  {
  }

  /** The second hand-written scanner for the same syntax, used between
      identifiers: its comment loop is inlined and checks in another order. */
  method SkipMessageIdCfws(value: string, start: nat) returns (r: Option<nat>)
    requires start <= |value|
    ensures r == CfwsEnd(value, start)
  {
    hide CfwsEnd, CommentEnd;
    var index := start;
    ghost var whole := CfwsEnd(value, start);
    while true
      invariant start <= index <= |value|
      invariant CfwsEnd(value, index) == whole
      decreases |value| - index
    {
      while index < |value| && IsWsp(value[index])
        invariant start <= index <= |value|
        invariant CfwsEnd(value, index) == whole
      {
        CfwsUnfolds(value, index);
        index := index + 1;
      }
      CfwsUnfolds(value, index);
      if index == |value| || value[index] != '(' {
        return Some(index);
      }
      var depth := 1;
      index := index + 1;
      ghost var body := index;
      ghost var comment := CommentEnd(value, index, 1);
      while depth != 0
        invariant body <= index <= |value|
        invariant CommentEnd(value, index, depth) == comment
        decreases |value| - index
      {
        CommentUnfolds(value, index, depth);
        if index == |value| {
          return None;
        }
        var c := value[index];
        if !IsAscii(c) {
          if IsControl(c) {
            return None;
          }
          index := index + 1;
          continue;
        }
        if !(IsWsp(c) || IsGraphic(c)) {
          return None;
        }
        if c == '\\' {
          index := index + 1;
          if index == |value| {
            return None;
          }
          var escaped := value[index];
          if IsAscii(escaped) {
            if !(IsWsp(escaped) || IsGraphic(escaped)) {
              return None;
            }
          } else if IsControl(escaped) {
            return None;
          }
        } else if c == '(' {
          depth := depth + 1;
        } else if c == ')' {
          depth := depth - 1;
        }
        index := index + 1;
      }
      CommentUnfolds(value, index, 0);
    }
  }

  method ParseIdLeftAtom(value: string, start: nat) returns (r: Option<nat>)
    requires start <= |value|
    ensures r == Past(start, AtomLength(value[start..]))
  {
    var end := start;
    while end < |value| && IsAtext(value[end])
      invariant start <= end <= |value|
      invariant end + AtomLength(value[end..]) == start + AtomLength(value[start..])
    {
      end := end + 1;
    }
    return if end != start then Some(end) else None;
  }

  lemma QuotedUnfolds(v: string, i: nat, escaped: bool)
    requires i <= |v|
    ensures i == |v| ==> QuotedLength(v[i..], escaped) == 0
    ensures i < |v| ==>
      var rest := QuotedLength(v[i + 1..], !escaped && v[i] == '\\');
      QuotedLength(v[i..], escaped) ==
        (if !escaped && v[i] == '"' then 1 else if !IsQuotedPairChar(v[i]) || rest == 0 then 0 else 1 + rest)
  {
    if i < |v| {
      assert v[i..][1..] == v[i + 1..];
    }
  }

  method ParseQuotedIdWord(value: string, start: nat) returns (r: Option<nat>)
    requires start < |value|
    ensures r == Past(start + 1, QuotedLength(value[start + 1..], false))
  {
    hide QuotedLength;
    var index := start + 1;
    var escaped := false;
    while index < |value|
      invariant start + 1 <= index <= |value|
      invariant Past(index, QuotedLength(value[index..], escaped)) ==
        Past(start + 1, QuotedLength(value[start + 1..], false))
    {
      var c := value[index];
      QuotedUnfolds(value, index, escaped);
      if escaped {
        if !IsWsp(c) && !IsGraphic(c) {
          return None;
        }
        escaped := false;
      } else if c == '\\' {
        escaped := true;
      } else if c == '"' {
        return Some(index + 1);
      } else if !(IsWsp(c) || c == '!' || '#' <= c <= '[' || ']' <= c <= '~') {
        return None;
      }
      index := index + 1;
    }
    QuotedUnfolds(value, index, escaped);
    return None;
  }

  // ---- Where an identifier ends, and where its halves meet

  /** The closing bracket: the first '>' met outside quotes, literals and comments. */
  ghost predicate IsIdEnd(value: string, start: nat, end: nat) {
    && start <= end < |value|
    && value[end] == '>' && LexRun(PLAIN, value[start..end]) == PLAIN
    && forall k | start <= k < end && LexRun(PLAIN, value[start..k]) == PLAIN :: value[k] != '>'
  }

  lemma IdEndUnique(value: string, start: nat, a: nat, b: nat)
    requires IsIdEnd(value, start, a) && IsIdEnd(value, start, b)
    ensures a == b
  {
  }

  /** A '@' outside quotes, literals and comments. */
  ghost predicate IsBareAt(inner: string, k: nat) {
    k < |inner| && inner[k] == '@' && LexRun(PLAIN, inner[..k]) == PLAIN
  }

  /** The separator: the only bare '@' of a text whose quoting is balanced. */
  ghost predicate IsSeparator(inner: string, k: nat) {
    && LexRun(PLAIN, inner) == PLAIN
    && IsBareAt(inner, k)
    && forall j | 0 <= j < |inner| && IsBareAt(inner, j) :: j == k
  }

  ghost function IdEnd(value: string, start: nat): (r: Option<nat>)
    ensures r.Some? ==> IsIdEnd(value, start, r.value)
    ensures r.None? ==> forall k: nat :: !IsIdEnd(value, start, k)
  {
    if exists k: nat :: IsIdEnd(value, start, k) then
      var k: nat :| IsIdEnd(value, start, k);
      Some(k)
    else None
  }

  ghost function Separator(inner: string): (r: Option<nat>)
    ensures r.Some? ==> IsSeparator(inner, r.value)
    ensures r.None? ==> forall k: nat :: !IsSeparator(inner, k)
  {
    if exists k: nat :: IsSeparator(inner, k) then
      var k: nat :| IsSeparator(inner, k);
      Some(k)
    else None
  }

  lemma LexRunStep(value: string, start: nat, index: nat)
    requires start <= index < |value|
    ensures LexRun(PLAIN, value[start..index + 1]) == LexStep(LexRun(PLAIN, value[start..index]), value[index])
  {
    assert value[start..index + 1][..index - start] == value[start..index];
    hide LexStep;
  }

  lemma LexRunBegins(value: string, start: nat)
    requires start <= |value|
    ensures LexRun(PLAIN, value[start..start]) == PLAIN
  {
  }

  method FindMessageIdEnd(value: string, start: nat) returns (r: Option<nat>)
    requires start <= |value|
    ensures r == IdEnd(value, start)
  {
    hide LexRun, IdEnd;
    LexRunBegins(value, start);
    var index := start;
    var quoted, literal, escaped := false, false, false;
    var commentDepth := 0;
    while index < |value|
      invariant start <= index <= |value|
      invariant commentDepth >= 0
      invariant LexRun(PLAIN, value[start..index]) == Lex(quoted, literal, escaped, commentDepth)
      invariant commentDepth == 0 && escaped ==> quoted || literal
      invariant forall k | start <= k < index && LexRun(PLAIN, value[start..k]) == PLAIN :: value[k] != '>'
    {
      var c := value[index];
      LexRunStep(value, start, index);
      if commentDepth != 0 {
        if escaped {
          escaped := false;
        } else if c == '\\' {
          escaped := true;
        } else if c == '(' {
          commentDepth := commentDepth + 1;
        } else if c == ')' {
          commentDepth := commentDepth - 1;
        }
      } else if escaped {
        escaped := false;
      } else if (quoted || literal) && c == '\\' {
        escaped := true;
      } else if !literal && c == '"' {
        quoted := !quoted;
      } else if !quoted && c == '[' {
        literal := true;
      } else if literal && c == ']' {
        literal := false;
      } else if !quoted && !literal && c == '(' {
        commentDepth := 1;
      } else if !quoted && !literal && c == '>' {
        assert IsIdEnd(value, start, index);
        return Some(index);
      }
      index := index + 1;
    }
    return None;
  }

  method MessageIdSeparator(inner: string) returns (r: Option<nat>)
    ensures r == Separator(inner)
  {
    hide LexRun, Separator;
    LexRunBegins(inner, 0);
    assert inner[0..0] == inner[..0];
    var separator: Option<nat> := None;
    var quoted, literal, escaped := false, false, false;
    var commentDepth := 0;
    for index := 0 to |inner|
      invariant commentDepth >= 0
      invariant LexRun(PLAIN, inner[..index]) == Lex(quoted, literal, escaped, commentDepth)
      invariant commentDepth == 0 && escaped ==> quoted || literal
      invariant separator.Some? ==> separator.value < index && IsBareAt(inner, separator.value)
      invariant forall k | 0 <= k < index && IsBareAt(inner, k) :: separator == Some(k)
    {
      var c := inner[index];
      LexRunStep(inner, 0, index);
      assert inner[0..index + 1] == inner[..index + 1] && inner[0..index] == inner[..index];
      if commentDepth != 0 {
        if escaped {
          escaped := false;
        } else if c == '\\' {
          escaped := true;
        } else if c == '(' {
          commentDepth := commentDepth + 1;
        } else if c == ')' {
          commentDepth := commentDepth - 1;
        }
      } else if escaped {
        escaped := false;
      } else if (quoted || literal) && c == '\\' {
        escaped := true;
      } else if !literal && c == '"' {
        quoted := !quoted;
      } else if !quoted && c == '[' {
        literal := true;
      } else if literal && c == ']' {
        literal := false;
      } else if !quoted && !literal && c == '(' {
        commentDepth := 1;
      } else if !quoted && !literal && c == '@' {
        assert IsBareAt(inner, index);
        if separator.Some? {
          return None;
        }
        separator := Some(index);
      }
    }
    assert inner[..|inner|] == inner;
    if quoted || literal || escaped || commentDepth != 0 {
      return None;
    }
    assert separator.Some? ==> IsSeparator(inner, separator.value);
    return separator;
  }
}
