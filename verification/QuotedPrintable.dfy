// Quoted-printable bodies (section 6.7 of RFC 2045): the validator that follows
// escapes, the length computed line by line, and a decoder neither of them runs.
// Each character stands for one byte.
module QuotedPrintable {
  import opened MailText

  /** What may trail on a line without meaning anything. */
  predicate IsTrailing(c: char) {
    c == ' ' || c == '\t' || c == '\r'
  }

  predicate IsLineByte(c: char) {
    c == '\t' || c == '\r' || ' ' <= c <= '~'
  }

  // ---- The validator

  predicate IsHexPair(raw: string, i: nat) {
    i + 1 < |raw| && IsHexDigit(raw[i]) && IsHexDigit(raw[i + 1])
  }

  /** How far the escape at a position reaches; nothing if it is malformed. */
  function EscapeLength(raw: string, i: nat): (n: nat)
    requires i < |raw|
    ensures n == 0 || i + n <= |raw|
  {
    if i + 2 < |raw| && raw[i + 1] == '\r' && raw[i + 2] == '\n' then 3
    else if i + 1 < |raw| && raw[i + 1] == '\n' then 2
    else if IsHexPair(raw, i + 1) then 3
    else 0
  }

  predicate EscapesAreValid(raw: string, i: nat)
    requires i <= |raw|
    decreases |raw| - i
  {
    i == |raw| ||
    if raw[i] != '=' then EscapesAreValid(raw, i + 1)
    else EscapeLength(raw, i) != 0 && EscapesAreValid(raw, i + EscapeLength(raw, i))
  }

  predicate IsValid(raw: string) {
    (forall k | 0 <= k < |raw| :: IsLineByte(raw[k]) || raw[k] == '\n') && EscapesAreValid(raw, 0)
  }

  method ValidateQuotedPrintable(raw: string) returns (valid: bool)
    ensures valid == IsValid(raw)
  {
    for k := 0 to |raw|
      invariant forall j | 0 <= j < k :: IsLineByte(raw[j]) || raw[j] == '\n'
    {
      if !IsLineByte(raw[k]) && raw[k] != '\n' {
        return false;
      }
    }
    var index := 0;
    while index < |raw|
      invariant index <= |raw|
      invariant EscapesAreValid(raw, index) == EscapesAreValid(raw, 0)
    {
      if raw[index] != '=' {
        index := index + 1;
        continue;
      }
      if index + 2 < |raw| && raw[index + 1] == '\r' && raw[index + 2] == '\n' {
        index := index + 3;
      } else if index + 1 < |raw| && raw[index + 1] == '\n' {
        index := index + 2;
      } else if index + 2 < |raw| && IsHexDigit(raw[index + 1]) && IsHexDigit(raw[index + 2]) {
        index := index + 3;
      } else {
        return false;
      }
    }
    return true;
  }

  // ---- The length, line by line

  function LineEnd(raw: string, start: nat): (end: nat)
    requires start <= |raw|
    ensures start <= end <= |raw|
    ensures end < |raw| ==> raw[end] == '\n'
    decreases |raw| - start
  {
    if start == |raw| || raw[start] == '\n' then start else LineEnd(raw, start + 1)
  }

  /** The end of a line without what trails on it. */
  function TrimmedEnd(raw: string, start: nat, end: nat): (t: nat)
    requires start <= end <= |raw|
    ensures start <= t <= end
    ensures t > start ==> !IsTrailing(raw[t - 1])
    ensures forall k | t <= k < end :: IsTrailing(raw[k])
  {
    if end > start && IsTrailing(raw[end - 1]) then TrimmedEnd(raw, start, end - 1) else end
  }

  predicate IsSoftBreak(raw: string, start: nat, t: nat)
    requires start <= t <= |raw|
  {
    t > start && raw[t - 1] == '='
  }

  /** The decoded length of a line's content. */
  function ContentLength(raw: string, i: nat, end: nat, t: nat): Option<nat>
    requires end <= t <= |raw|
    decreases |raw| - i
  {
    if i >= end then Some(0)
    else if !IsLineByte(raw[i]) then None
    else if raw[i] != '=' then Plus(1, ContentLength(raw, i + 1, end, t))
    else if i + 2 < t && IsHexPair(raw, i + 1) then Plus(1, ContentLength(raw, i + 3, end, t))
    else None
  }

  function Plus(n: nat, rest: Option<nat>): Option<nat> {
    if rest.None? then None else Some(n + rest.value)
  }

  function DecodedLength(raw: string, start: nat): Option<nat>
    requires start <= |raw|
    decreases |raw| - start
  {
    var end := LineEnd(raw, start);
    var t := TrimmedEnd(raw, start, end);
    var soft := IsSoftBreak(raw, start, t);
    var content := ContentLength(raw, start, if soft then t - 1 else t, t);
    if content.None? || end == |raw| then content
    else Plus(content.value + if soft then 0 else 2, DecodedLength(raw, end + 1))
  }

  lemma DecodedLengthUnfolds(raw: string, start: nat)
    requires start <= |raw|
    ensures var end := LineEnd(raw, start);
      var t := TrimmedEnd(raw, start, end);
      var soft := IsSoftBreak(raw, start, t);
      var content := ContentLength(raw, start, if soft then t - 1 else t, t);
      DecodedLength(raw, start) ==
      if content.None? || end == |raw| then content
      else Plus(content.value + if soft then 0 else 2, DecodedLength(raw, end + 1))
  {
    hide LineEnd, TrimmedEnd, ContentLength, IsSoftBreak;
  }

  lemma NothingDecodes(raw: string)
    ensures DecodedLength(raw, |raw|) == Some(0)
  {
  }

  /** The inner loop: one line's content. */
  method LineContentLen(raw: string, start: nat, contentEnd: nat, end: nat) returns (r: Option<nat>)
    requires contentEnd <= end <= |raw|
    ensures r == ContentLength(raw, start, contentEnd, end)
  {
    hide IsHexDigit, IsLineByte;
    var length := 0;
    var index := start;
    while index < contentEnd
      invariant length >= 0
      invariant ContentLength(raw, start, contentEnd, end) == Plus(length, ContentLength(raw, index, contentEnd, end))
      decreases contentEnd - index
    {
      var c := raw[index];
      if !IsLineByte(c) {
        return None;
      }
      if c == '=' {
        if index + 2 >= end || !IsHexDigit(raw[index + 1]) || !IsHexDigit(raw[index + 2]) {
          return None;
        }
        index := index + 3;
      } else {
        index := index + 1;
      }
      length := length + 1;
    }
    return Some(length);
  }

  method QuotedPrintableDecodedLen(raw: string) returns (r: Option<nat>)
    ensures r == DecodedLength(raw, 0)
  {
    hide TrimmedEnd, DecodedLength, LineEnd, ContentLength;
    ghost var whole := DecodedLength(raw, 0);
    var decodedLen := 0;
    var lineStart := 0;
    var previousLineWasHard := false;
    while true
      invariant decodedLen >= 0 && lineStart <= |raw|
      invariant whole == Plus(decodedLen + if previousLineWasHard then 2 else 0, DecodedLength(raw, lineStart))
      decreases |raw| - lineStart
    {
      DecodedLengthUnfolds(raw, lineStart);
      NothingDecodes(raw);
      var lineEnd := LineEnd(raw, lineStart);
      var end := lineEnd;
      while end > lineStart && IsTrailing(raw[end - 1])
        invariant lineStart <= end <= lineEnd
        invariant TrimmedEnd(raw, lineStart, end) == TrimmedEnd(raw, lineStart, lineEnd)
      {
        end := end - 1;
      }
      if previousLineWasHard {
        decodedLen := decodedLen + 2;
      }
      var softBreak := end > lineStart && raw[end - 1] == '=';
      var contentEnd := if softBreak then end - 1 else end;
      var content := LineContentLen(raw, lineStart, contentEnd, end);
      if content.None? {
        return None;
      }
      decodedLen := decodedLen + content.value;
      previousLineWasHard := !softBreak;
      if lineEnd == |raw| {
        break;
      }
      lineStart := lineEnd + 1;
      if lineStart == |raw| {
        if previousLineWasHard {
          decodedLen := decodedLen + 2;
        }
        break;
      }
    }
    return Some(decodedLen);
  }

  // ---- The decoder

  function SkipTrailing(raw: string, i: nat): (j: nat)
    requires i <= |raw|
    ensures i <= j <= |raw|
    ensures forall k | i <= k < j :: IsTrailing(raw[k])
    ensures j < |raw| ==> !IsTrailing(raw[j])
    decreases |raw| - i
  {
    if i < |raw| && IsTrailing(raw[i]) then SkipTrailing(raw, i + 1) else i
  }

  function Cons(c: char, rest: Option<string>): Option<string> {
    if rest.None? then None else Some([c] + rest.value)
  }

  /** Decoding in one pass: escapes become bytes, soft breaks and trailing white
      space vanish, line ends become CRLF, everything else stands for itself. */
  function Decode(raw: string, i: nat): Option<string>
    requires i <= |raw|
    decreases |raw| - i
  {
    if i == |raw| then Some("")
    else if raw[i] == '\n' then Cons('\r', Cons('\n', Decode(raw, i + 1)))
    else if raw[i] == '=' then
      var n := EscapeLength(raw, i);
      if n == 0 then None
      else if IsHexPair(raw, i + 1) then
        Cons((16 * HexValue(raw[i + 1]) + HexValue(raw[i + 2])) as char, Decode(raw, i + 3))
      else Decode(raw, i + n)
    else if IsTrailing(raw[i]) && (SkipTrailing(raw, i) == |raw| || raw[SkipTrailing(raw, i)] == '\n') then
      Decode(raw, SkipTrailing(raw, i))
    else Cons(raw[i], Decode(raw, i + 1))
  }

  // ---- The length is the decoded length

  lemma {:induction false} NoLineFeedBefore(raw: string, start: nat)
    requires start <= |raw|
    ensures forall k | start <= k < LineEnd(raw, start) :: raw[k] != '\n'
    decreases |raw| - start
  {
    if start < |raw| && raw[start] != '\n' {
      NoLineFeedBefore(raw, start + 1);
    }
  }

  /** A line as its bounds: where it ends, and where what means something ends. */
  ghost predicate IsLine(raw: string, start: nat, end: nat, t: nat) {
    && start <= t <= end <= |raw|
    && (forall k | start <= k < end :: raw[k] != '\n')
    && (end < |raw| ==> raw[end] == '\n')
    && (t > start ==> !IsTrailing(raw[t - 1]))
    && (forall k | t <= k < end :: IsTrailing(raw[k]))
  }

  function ContentEnd(raw: string, start: nat, t: nat): nat
    requires start <= t <= |raw|
  {
    if IsSoftBreak(raw, start, t) then t - 1 else t
  }

  /** An escape inside a line's content is a hexadecimal one and stays inside. */
  lemma EscapeInContent(raw: string, start: nat, end: nat, t: nat, i: nat)
    requires IsLine(raw, start, end, t)
    requires start <= i < ContentEnd(raw, start, t) && raw[i] == '=' && EscapeLength(raw, i) != 0
    ensures IsHexPair(raw, i + 1) && i + 3 <= ContentEnd(raw, start, t) && EscapeLength(raw, i) == 3
  {
    if IsHexPair(raw, i + 1) {
      assert !IsTrailing(raw[i + 1]) && !IsTrailing(raw[i + 2]);
    } else {
      assert false;
    }
  }

  /** White space inside a line's content stands for itself. */
  lemma ContentIsNotTrailing(raw: string, start: nat, end: nat, t: nat, i: nat)
    requires IsLine(raw, start, end, t) && start <= i < t
    ensures SkipTrailing(raw, i) < t && raw[SkipTrailing(raw, i)] != '\n'
  {
  }

  lemma DecodePlain(raw: string, i: nat)
    requires i < |raw| && raw[i] != '\n' && raw[i] != '='
    requires SkipTrailing(raw, i) < |raw| && raw[SkipTrailing(raw, i)] != '\n'
    ensures Decode(raw, i) == Cons(raw[i], Decode(raw, i + 1))
  {
  }

  lemma DecodeHex(raw: string, i: nat)
    requires i < |raw| && raw[i] == '=' && IsHexPair(raw, i + 1) && EscapeLength(raw, i) != 0
    ensures Decode(raw, i) ==
            Cons((16 * HexValue(raw[i + 1]) + HexValue(raw[i + 2])) as char, Decode(raw, i + 3))
  {
  }

  lemma {:induction false} ContentDecodes(raw: string, start: nat, end: nat, t: nat, i: nat)
    requires IsLine(raw, start, end, t) && start <= i <= ContentEnd(raw, start, t)
    requires (forall k | 0 <= k < |raw| :: IsLineByte(raw[k]) || raw[k] == '\n') && EscapesAreValid(raw, i)
    ensures var contentEnd := ContentEnd(raw, start, t);
      var content := ContentLength(raw, i, contentEnd, t);
      && content.Some? && EscapesAreValid(raw, contentEnd)
      && (Decode(raw, contentEnd).Some? ==>
            Decode(raw, i).Some? && |Decode(raw, i).value| == content.value + |Decode(raw, contentEnd).value|)
    decreases |raw| - i
  {
    hide Decode, IsHexDigit, IsTrailing, SkipTrailing;
    var contentEnd := ContentEnd(raw, start, t);
    if i < contentEnd {
      if raw[i] == '=' {
        EscapeInContent(raw, start, end, t, i);
        ContentDecodes(raw, start, end, t, i + 3);
        DecodeHex(raw, i);
      } else {
        ContentIsNotTrailing(raw, start, end, t, i);
        ContentDecodes(raw, start, end, t, i + 1);
        DecodePlain(raw, i);
      }
    }
  }

  lemma {:induction false} TrailingIsSkipped(raw: string, i: nat, end: nat)
    requires i <= end <= |raw| && (forall k | i <= k < end :: IsTrailing(raw[k]))
    requires end < |raw| ==> raw[end] == '\n'
    ensures SkipTrailing(raw, i) == end
    ensures EscapesAreValid(raw, i) ==> EscapesAreValid(raw, end)
    decreases end - i
  {
    if i < end {
      TrailingIsSkipped(raw, i + 1, end);
    }
  }

  /** After a hard line's content: its end becomes CRLF, unless the text ends. */
  lemma HardEndDecodes(raw: string, start: nat, end: nat, t: nat)
    requires IsLine(raw, start, end, t) && !IsSoftBreak(raw, start, t) && EscapesAreValid(raw, t)
    ensures end < |raw| ==> EscapesAreValid(raw, end + 1)
    ensures Decode(raw, t) ==
            if end == |raw| then Some("") else Cons('\r', Cons('\n', Decode(raw, end + 1)))
  {
    TrailingIsSkipped(raw, t, end);
    assert t < end ==> Decode(raw, t) == Decode(raw, end);
  }

  /** After a soft line's content: its end vanishes, and it has one. */
  lemma SoftEndDecodes(raw: string, start: nat, end: nat, t: nat)
    requires IsLine(raw, start, end, t) && IsSoftBreak(raw, start, t) && EscapesAreValid(raw, t - 1)
    ensures end < |raw| && EscapesAreValid(raw, end + 1)
    ensures Decode(raw, t - 1) == Decode(raw, end + 1)
  {
    var i := t - 1;
    var n := EscapeLength(raw, i);
    assert n != 0;
    assert i + 1 == |raw| || !IsHexDigit(raw[i + 1]);
    assert i + n == end + 1;
  }

  /** What the validator accepts has a length, and it is the length of its decoding. */
  lemma {:induction false} LengthIsExact(raw: string, start: nat)
    requires start <= |raw| && EscapesAreValid(raw, start)
    requires forall k | 0 <= k < |raw| :: IsLineByte(raw[k]) || raw[k] == '\n'
    ensures DecodedLength(raw, start).Some? && Decode(raw, start).Some?
    ensures DecodedLength(raw, start).value == |Decode(raw, start).value|
    decreases |raw| - start
  {
    hide Decode, DecodedLength, EscapesAreValid, ContentLength, LineEnd, TrimmedEnd;
    var end := LineEnd(raw, start);
    var t := TrimmedEnd(raw, start, end);
    NoLineFeedBefore(raw, start);
    DecodedLengthUnfolds(raw, start);
    ContentDecodes(raw, start, end, t, start);
    if IsSoftBreak(raw, start, t) {
      SoftEndDecodes(raw, start, end, t);
      LengthIsExact(raw, end + 1);
    } else {
      HardEndDecodes(raw, start, end, t);
      if end < |raw| {
        LengthIsExact(raw, end + 1);
      }
    }
  }

  /** The validator and the length function agree on every valid body. */
  lemma ValidBodiesHaveLengths(raw: string)
    requires IsValid(raw)
    ensures DecodedLength(raw, 0).Some? && Decode(raw, 0).Some?
    ensures DecodedLength(raw, 0).value == |Decode(raw, 0).value|
  {
    LengthIsExact(raw, 0);
  }

  // ---- Which bodies have a length

  /** Up to the end of the line there is only what may trail. */
  predicate OnlyTrails(raw: string, i: nat)
    requires i <= |raw|
  {
    SkipTrailing(raw, i) == |raw| || raw[SkipTrailing(raw, i)] == '\n'
  }

  /** A line end, something that trails, or a printable byte; and where that starts
      an escape, a hexadecimal one or one that ends the line but for what trails. */
  predicate IsMeasured(raw: string, k: nat)
    requires k < |raw|
  {
    || raw[k] == '\n' || OnlyTrails(raw, k)
    || (IsLineByte(raw[k]) && (raw[k] == '=' ==> OnlyTrails(raw, k + 1) || IsHexPair(raw, k + 1)))
  }

  lemma PairStaysInside(raw: string, start: nat, end: nat, t: nat, i: nat)
    requires IsLine(raw, start, end, t) && start <= i < ContentEnd(raw, start, t)
    requires raw[i] == '=' && IsHexPair(raw, i + 1)
    ensures i + 3 <= ContentEnd(raw, start, t)
    ensures IsMeasured(raw, i + 1) && IsMeasured(raw, i + 2)
  {
    assert !IsTrailing(raw[i + 1]) && !IsTrailing(raw[i + 2]) && raw[i + 1] != '\n' && raw[i + 2] != '\n';
    assert IsLineByte(raw[i + 1]) && IsLineByte(raw[i + 2]);
  }

  lemma ContentByteIsMeasured(raw: string, start: nat, end: nat, t: nat, i: nat)
    requires IsLine(raw, start, end, t) && start <= i < ContentEnd(raw, start, t)
    ensures IsMeasured(raw, i) <==> IsLineByte(raw[i]) && (raw[i] == '=' ==> IsHexPair(raw, i + 1))
  {
    ContentIsNotTrailing(raw, start, end, t, i);
    if raw[i] == '=' {
      ContentIsNotTrailing(raw, start, end, t, i + 1);
    }
    hide SkipTrailing, IsHexDigit, IsTrailing;
  }

  lemma {:induction false} ContentIsMeasured(raw: string, start: nat, end: nat, t: nat, i: nat)
    requires IsLine(raw, start, end, t) && start <= i <= ContentEnd(raw, start, t)
    ensures var contentEnd := ContentEnd(raw, start, t);
      ContentLength(raw, i, contentEnd, t).Some? <==> forall k | i <= k < contentEnd :: IsMeasured(raw, k)
    decreases |raw| - i
  {
    assert t <= |raw|;
    hide IsMeasured, IsHexPair, IsLineByte, IsLine;
    if i < ContentEnd(raw, start, t) {
      ContentByteIsMeasured(raw, start, end, t, i);
      if raw[i] == '=' && IsHexPair(raw, i + 1) {
        PairStaysInside(raw, start, end, t, i);
        ContentIsMeasured(raw, start, end, t, i + 3);
      } else if raw[i] != '=' {
        ContentIsMeasured(raw, start, end, t, i + 1);
      }
    }
  }

  lemma TailIsMeasured(raw: string, start: nat, end: nat, t: nat, k: nat)
    requires IsLine(raw, start, end, t) && ContentEnd(raw, start, t) <= k <= end && k < |raw|
    ensures IsMeasured(raw, k)
  {
    if k < end {
      TrailingIsSkipped(raw, if k < t then t else k, end);
    }
  }

  /** A body has a length if and only if every byte of it is measured: nothing but
      printable bytes, hexadecimal escapes, soft breaks and what trails on a line. */
  lemma {:induction false} LengthIsDefined(raw: string, start: nat)
    requires start <= |raw|
    ensures DecodedLength(raw, start).Some? <==> forall k | start <= k < |raw| :: IsMeasured(raw, k)
    decreases |raw| - start
  {
    hide DecodedLength, ContentLength, LineEnd, TrimmedEnd, IsMeasured;
    var end := LineEnd(raw, start);
    var t := TrimmedEnd(raw, start, end);
    NoLineFeedBefore(raw, start);
    DecodedLengthUnfolds(raw, start);
    ContentIsMeasured(raw, start, end, t, start);
    forall k | ContentEnd(raw, start, t) <= k <= end && k < |raw|
      ensures IsMeasured(raw, k)
    {
      TailIsMeasured(raw, start, end, t, k);
    }
    if end < |raw| {
      LengthIsDefined(raw, end + 1);
    }
  }

  /** A body that does not validate can have a length: blanks after a soft break. */
  lemma LengthWithoutValidity()
    ensures DecodedLength("= \n", 0).Some? && !IsValid("= \n")
  {
    LengthIsDefined("= \n", 0);
    assert SkipTrailing("= \n", 1) == 2;
    assert !EscapesAreValid("= \n", 0);
  }
}
