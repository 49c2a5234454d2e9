// Splitting a multipart body into its parts (section 5.1.1 of RFC 2046), and
// the bounded walk over the nested parts that runs before a message is parsed.
// Each character stands for one byte.
module Multipart {
  import opened MailText

  // ---- Searching

  ghost predicate IsMatch(text: string, i: nat, needle: string) {
    i + |needle| <= |text| && text[i..i + |needle|] == needle
  }

  function FindSubslice(text: string, start: nat, needle: string): (r: Option<nat>)
    ensures r.Some? ==> needle != "" && start <= r.value && IsMatch(text, r.value, needle)
    ensures r.Some? ==> forall i: nat | start <= i < r.value :: !IsMatch(text, i, needle)
    ensures r.None? && needle != "" ==> forall i: nat | start <= i :: !IsMatch(text, i, needle)
    decreases |text| - start
  {
    if needle == "" || start + |needle| > |text| then None
    else if text[start..start + |needle|] == needle then Some(start)
    else FindSubslice(text, start + 1, needle)
  }

  /** Where transport white space ends. */
  function SkipWsp(text: string, i: nat): (r: nat)
    requires i <= |text|
    ensures i <= r <= |text|
    decreases |text| - i
  {
    if i < |text| && IsWsp(text[i]) then SkipWsp(text, i + 1) else i
  }

  predicate IsMarker(text: string, i: nat) {
    i + 2 <= |text| && text[i] == '-' && text[i + 1] == '-'
  }

  /** The rest of a delimiter line: a closing marker or none, white space, a line end. */
  predicate IsDelimiterTail(text: string, i: nat)
    requires i <= |text|
  {
    var afterMarker := if IsMarker(text, i) then i + 2 else i;
    var end := SkipWsp(text, afterMarker);
    || end == |text|
    || text[end] == '\n'
    || (text[end] == '\r' && end + 1 < |text| && text[end + 1] == '\n')
  }

  /** A delimiter line: at the start of the searched body or right after a LF. */
  ghost predicate IsDelimiterLine(text: string, start: nat, i: nat, delimiter: string) {
    && start <= i
    && IsMatch(text, i, delimiter)
    && (i == start || text[i - 1] == '\n')
    && IsDelimiterTail(text, i + |delimiter|)
  }

  ghost predicate IsFirstDelimiter(text: string, start: nat, i: nat, delimiter: string) {
    && IsDelimiterLine(text, start, i, delimiter)
    && forall j: nat | start <= j < i :: !IsDelimiterLine(text, start, j, delimiter)
  }

  ghost function FirstDelimiter(text: string, start: nat, delimiter: string): (r: Option<nat>)
    ensures r.Some? ==> IsFirstDelimiter(text, start, r.value, delimiter)
    ensures r.None? ==> forall i: nat :: !IsFirstDelimiter(text, start, i, delimiter)
  {
    if exists i: nat :: IsFirstDelimiter(text, start, i, delimiter) then
      var i: nat :| IsFirstDelimiter(text, start, i, delimiter);
      Some(i)
    else None
  }

  method ValidBoundaryLineSuffix(text: string, start: nat) returns (valid: bool)
    requires start <= |text|
    ensures valid == IsDelimiterTail(text, start)
  {
    var index := start;
    if IsMarker(text, index) {
      index := index + 2;
    }
    ghost var from := index;
    while index < |text| && IsWsp(text[index])
      invariant from <= index <= |text|
      invariant SkipWsp(text, index) == SkipWsp(text, from)
    {
      index := index + 1;
    }
    return index == |text| || text[index] == '\n'
      || (text[index] == '\r' && index + 1 < |text| && text[index + 1] == '\n');
  }

  method FindLinePrefix(text: string, start: nat, needle: string) returns (r: Option<nat>)
    requires needle != ""
    ensures r == FirstDelimiter(text, start, needle)
  {
    hide IsDelimiterTail, SkipWsp;
    var searchFrom := start;
    while true
      invariant start <= searchFrom
      invariant forall j: nat | start <= j < searchFrom :: !IsDelimiterLine(text, start, j, needle)
      decreases |text| - searchFrom
    {
      var found := FindSubslice(text, searchFrom, needle);
      if found.None? {
        return None;
      }
      var index := found.value;
      if index == start || text[index - 1] == '\n' {
        var valid := ValidBoundaryLineSuffix(text, index + |needle|);
        if valid {
          assert IsFirstDelimiter(text, start, index, needle);
          return Some(index);
        }
      }
      searchFrom := index + 1;
    }
  }

  // ---- Slicing

  function StripTrailingLineEnding(text: string, start: nat, end: nat): (r: nat)
    requires start <= end <= |text|
    ensures start <= r <= end
  {
    if end > start && text[end - 1] == '\n' then
      if end - 1 > start && text[end - 2] == '\r' then end - 2 else end - 1
    else end
  }

  /** One part, and where the search for the next one resumes, if it does. */
  datatype Cut = NoCut | Cut(part: string, resume: Option<nat>)

  ghost function CutAfter(text: string, from: nat, delimiter: string): (cut: Cut)
    requires from <= |text|
    ensures cut.Cut? ==> |cut.part| < |text|
    ensures cut.Cut? && cut.resume.Some? ==> from < cut.resume.value <= |text|
  {
    var newline := Find(text, from, '\n');
    if newline.None? then NoCut else
    var start := newline.value + 1;
    var next := FirstDelimiter(text, start, delimiter);
    if next.None? then Cut(text[start..], None) else
    var end := next.value + |delimiter|;
    var closing := end + 2 > |text| || IsMarker(text, end);
    Cut(text[start..StripTrailingLineEnding(text, start, next.value)], if closing then None else Some(end))
  }

  /** The parts between the delimiter lines that follow a position. */
  ghost function Slices(text: string, from: nat, delimiter: string): (parts: seq<string>)
    requires from <= |text|
    decreases |text| - from
  {
    match CutAfter(text, from, delimiter)
    case NoCut => []
    case Cut(part, resume) =>
      [part] + if resume.None? then [] else Slices(text, resume.value, delimiter)
  }

  lemma {:induction false} SlicesAreShorter(text: string, from: nat, delimiter: string)
    requires from <= |text|
    ensures forall k | 0 <= k < |Slices(text, from, delimiter)| :: |Slices(text, from, delimiter)[k]| < |text|
    decreases |text| - from
  {
    hide CutAfter;
    var cut := CutAfter(text, from, delimiter);
    if cut.Cut? && cut.resume.Some? {
      SlicesAreShorter(text, cut.resume.value, delimiter);
    }
  }

  // ---- Splitting undoes joining

  function Delimiter(boundary: string): (delimiter: string)
    ensures |delimiter| == |boundary| + 2
  {
    "--" + boundary
  }

  /** The body a writer produces: each part after a delimiter line and before a
      line end, then the closing delimiter. */
  function Joined(parts: seq<string>, delimiter: string): string {
    if parts == [] then delimiter + "--" + "\r\n"
    else delimiter + "\r\n" + parts[0] + "\r\n" + Joined(parts[1..], delimiter)
  }

  predicate IsOneLine(s: string) {
    forall k | 0 <= k < |s| :: s[k] != '\r' && s[k] != '\n'
  }

  ghost predicate HasDelimiterLine(part: string, delimiter: string) {
    exists i: nat :: IsDelimiterLine(part, 0, i, delimiter)
  }

  lemma {:induction false} SkipWspInPart(text: string, start: nat, part: string, i: nat)
    requires start + |part| + 2 <= |text| && text[start..start + |part|] == part
    requires text[start + |part|] == '\r' && i <= |part|
    ensures SkipWsp(text, start + i) == start + SkipWsp(part, i)
    decreases |part| - i
  {
    if i < |part| {
      assert part[i] == text[start + i];
      if IsWsp(part[i]) {
        SkipWspInPart(text, start, part, i + 1);
      }
    }
  }

  lemma TailInPart(text: string, start: nat, part: string, i: nat)
    requires start + |part| + 2 <= |text| && text[start..start + |part|] == part
    requires text[start + |part|] == '\r' && text[start + |part| + 1] == '\n' && i <= |part|
    ensures IsDelimiterTail(text, start + i) == IsDelimiterTail(part, i)
  {
    hide SkipWsp;
    assert forall k | 0 <= k < |part| :: part[k] == text[start + k];
    var after := if IsMarker(part, i) then i + 2 else i;
    SkipWspInPart(text, start, part, after);
  }

  /** Seen from the whole body, the delimiter lines inside a part are the part's own. */
  lemma DelimiterInPart(text: string, start: nat, part: string, i: nat, delimiter: string)
    requires start + |part| + 2 <= |text| && text[start..start + |part|] == part
    requires text[start + |part|] == '\r' && text[start + |part| + 1] == '\n'
    requires IsOneLine(delimiter) && delimiter != "" && i < |part| + 2
    ensures IsDelimiterLine(text, start, start + i, delimiter) <==> IsDelimiterLine(part, 0, i, delimiter)
  {
    assert forall k | 0 <= k < |part| :: part[k] == text[start + k];
    if i + |delimiter| <= |part| {
      var n := i + |delimiter|;
      assert forall k | 0 <= k < |delimiter| :: part[i..n][k] == text[start + i..start + n][k];
      assert part[i..n] == text[start + i..start + n];
      TailInPart(text, start, part, n);
    } else if start + i + |delimiter| <= |text| {
      var k := if i <= |part| then |part| - i else 0;
      assert text[start + i..start + i + |delimiter|][k] == text[start + i + k];
    }
  }

  lemma JoinedStartsAnew(text: string, at: nat, start: nat, parts: seq<string>, delimiter: string)
    requires start < at <= |text| && text[at..] == Joined(parts, delimiter) && text[at - 1] == '\n'
    ensures IsDelimiterLine(text, start, at, delimiter)
  {
    var n := |delimiter|;
    var tail := Joined(parts, delimiter);
    assert tail[..n] == delimiter;
    assert text[at..][..n] == text[at..at + n];
    if parts == [] {
      assert tail[n..] == "--\r\n";
      assert text[at + n..] == text[at..][n..] == "--\r\n";
      assert text[at + n] == text[at + n..][0] && text[at + n + 1] == text[at + n..][1];
      assert text[at + n + 2] == text[at + n..][2] == '\r';
      assert text[at + n + 3] == text[at + n..][3] == '\n';
    } else {
      assert tail[n] == '\r' && tail[n + 1] == '\n';
      assert text[at + n] == tail[n] && text[at + n + 1] == tail[n + 1];
    }
  }

  lemma LineEndAt(text: string, at: nat)
    requires at + 2 <= |text| && text[at..at + 2] == "\r\n"
    ensures text[at] == '\r' && text[at + 1] == '\n'
  {
    assert text[at..at + 2][0] == text[at] && text[at..at + 2][1] == text[at + 1];
  }

  /** A piece before a line end. */
  lemma LineAt(text: string, at: nat, piece: string, rest: string)
    requires at <= |text| && text[at..] == piece + ("\r\n" + rest)
    ensures at + |piece| + 2 <= |text| && text[at..at + |piece|] == piece
    ensures text[at + |piece|] == '\r' && text[at + |piece| + 1] == '\n' && text[at + |piece| + 2..] == rest
  {
    hide *;
    PieceAt(text, at, piece, "\r\n" + rest);
    PieceAt(text, at + |piece|, "\r\n", rest);
    LineEndAt(text, at + |piece|);
  }

  /** Where each piece of a joined body lies. */
  lemma JoinedLayout(text: string, at: nat, parts: seq<string>, delimiter: string)
    requires at <= |text| && parts != [] && text[at..] == Joined(parts, delimiter)
    ensures var start := at + |delimiter| + 2;
      var end := start + |parts[0]|;
      && end + 2 <= |text|
      && text[at..at + |delimiter|] == delimiter
      && text[start - 2] == '\r' && text[start - 1] == '\n'
      && text[start..end] == parts[0]
      && text[end] == '\r' && text[end + 1] == '\n'
      && text[end + 2..] == Joined(parts[1..], delimiter)
  {
    var rest := Joined(parts[1..], delimiter);
    var n := at + |delimiter|;
    hide *;
    JoinedUnfolds(parts, delimiter);
    LineAt(text, at, delimiter, parts[0] + ("\r\n" + rest));
    LineAt(text, n + 2, parts[0], rest);
  }

  lemma JoinedUnfolds(parts: seq<string>, delimiter: string)
    requires parts != []
    ensures Joined(parts, delimiter) == delimiter + ("\r\n" + (parts[0] + ("\r\n" + Joined(parts[1..], delimiter))))
  {
    var rest := Joined(parts[1..], delimiter);
    assert delimiter + "\r\n" + parts[0] + "\r\n" + rest == delimiter + ("\r\n" + (parts[0] + ("\r\n" + rest)));
  }

  lemma JoinedTailLayout(text: string, at: nat, parts: seq<string>, delimiter: string)
    requires at <= |text| && text[at..] == Joined(parts, delimiter)
    ensures var end := at + |delimiter|;
      end + 2 <= |text| && (IsMarker(text, end) <==> parts == [])
  {
    var n := |delimiter|;
    if parts == [] {
      assert text[at..] == delimiter + ("--" + "\r\n");
      PieceAt(text, at, delimiter, "--" + "\r\n");
      PieceAt(text, at + n, "--", "\r\n");
      assert text[at + n] == text[at + n..at + n + 2][0] && text[at + n + 1] == text[at + n..at + n + 2][1];
    } else {
      hide Joined;
      JoinedLayout(text, at, parts, delimiter);
    }
  }

  lemma FirstDelimiterUnique(text: string, start: nat, i: nat, delimiter: string)
    requires IsFirstDelimiter(text, start, i, delimiter)
    ensures FirstDelimiter(text, start, delimiter) == Some(i)
  {
    var found := FirstDelimiter(text, start, delimiter);
    assert found.Some?;
    assert !(found.value < i) && !(i < found.value);
  }

  lemma NewlineEndsDelimiterLine(text: string, from: nat)
    requires from + 2 <= |text| && text[from] == '\r' && text[from + 1] == '\n'
    ensures Find(text, from, '\n') == Some(from + 1)
  {
    assert Find(text, from, '\n') == Find(text, from + 1, '\n');
  }

  lemma {:induction false} LeastDelimiter(text: string, start: nat, i: nat, delimiter: string)
    requires IsDelimiterLine(text, start, i, delimiter)
    ensures FirstDelimiter(text, start, delimiter).Some? && FirstDelimiter(text, start, delimiter).value <= i
    decreases i
  {
    if IsFirstDelimiter(text, start, i, delimiter) {
      FirstDelimiterUnique(text, start, i, delimiter);
    } else {
      var j: nat :| start <= j < i && IsDelimiterLine(text, start, j, delimiter);
      LeastDelimiter(text, start, j, delimiter);
    }
  }

  /** The region of a joined body that holds one part, its line end included. */
  ghost predicate IsPartAt(text: string, start: nat, part: string) {
    && start + |part| + 2 <= |text|
    && text[start..start + |part|] == part
    && text[start + |part|] == '\r' && text[start + |part| + 1] == '\n'
  }

  lemma DelimitersInPart(text: string, start: nat, part: string, delimiter: string)
    requires IsPartAt(text, start, part) && IsOneLine(delimiter) && delimiter != ""
    ensures forall i: nat | i < |part| + 2 ::
      IsDelimiterLine(text, start, start + i, delimiter) <==> IsDelimiterLine(part, 0, i, delimiter)
  {
    hide IsDelimiterLine;
    forall i: nat | i < |part| + 2
      ensures IsDelimiterLine(text, start, start + i, delimiter) <==> IsDelimiterLine(part, 0, i, delimiter)
    {
      DelimiterInPart(text, start, part, i, delimiter);
    }
  }

  /** A part's region ends at the next delimiter line, unless the part holds one itself. */
  lemma PartEnds(text: string, start: nat, part: string, delimiter: string)
    requires IsPartAt(text, start, part) && IsOneLine(delimiter) && delimiter != ""
    requires IsDelimiterLine(text, start, start + |part| + 2, delimiter)
    ensures var found := FirstDelimiter(text, start, delimiter);
      if HasDelimiterLine(part, delimiter)
      then found.Some? && found.value < start + |part|
      else found == Some(start + |part| + 2)
  {
    hide IsDelimiterTail, IsOneLine;
    DelimitersInPart(text, start, part, delimiter);
    if HasDelimiterLine(part, delimiter) {
      var i: nat :| IsDelimiterLine(part, 0, i, delimiter);
      LeastDelimiter(text, start, start + i, delimiter);
    } else {
      var end := start + |part| + 2;
      forall j: nat | start <= j < end
        ensures !IsDelimiterLine(text, start, j, delimiter)
      {
        var i := j - start;
        assert !IsDelimiterLine(part, 0, i, delimiter);
        assert j == start + i;
      }
      FirstDelimiterUnique(text, start, end, delimiter);
    }
  }

  lemma DelimiterFits(text: string, start: nat, delimiter: string)
    requires FirstDelimiter(text, start, delimiter).Some?
    ensures var next := FirstDelimiter(text, start, delimiter).value;
      start <= next && next + |delimiter| <= |text|
  {
  }

  lemma CutStep(text: string, from: nat, start: nat, next: nat, delimiter: string)
    requires from < start <= |text| && Find(text, from, '\n') == Some(start - 1)
    requires FirstDelimiter(text, start, delimiter) == Some(next)
    ensures start <= next && next + |delimiter| <= |text|
    ensures var end := next + |delimiter|;
      var closing := end + 2 > |text| || IsMarker(text, end);
      CutAfter(text, from, delimiter) ==
      Cut(text[start..StripTrailingLineEnding(text, start, next)], if closing then None else Some(end))
  {
    hide StripTrailingLineEnding, FirstDelimiter, IsFirstDelimiter, Find, IsDelimiterTail, IsDelimiterLine;
    DelimiterFits(text, start, delimiter);
  }

  lemma LineEndIsStripped(text: string, start: nat, part: string)
    requires IsPartAt(text, start, part)
    ensures StripTrailingLineEnding(text, start, start + |part| + 2) == start + |part|
  {
  }

  ghost predicate NoDelimiterLines(parts: seq<string>, delimiter: string) {
    forall k | 0 <= k < |parts| :: !HasDelimiterLine(parts[k], delimiter)
  }

  lemma NoDelimiterLinesCons(parts: seq<string>, delimiter: string)
    requires parts != []
    ensures NoDelimiterLines(parts, delimiter) <==>
            !HasDelimiterLine(parts[0], delimiter) && NoDelimiterLines(parts[1..], delimiter)
  {
    assert forall k | 0 < k < |parts| :: parts[k] == parts[1..][k - 1];
    assert forall k | 0 <= k < |parts[1..]| :: parts[1..][k] == parts[k + 1];
  }

  lemma NoDelimiterLinesNone(parts: seq<string>, delimiter: string)
    requires parts == []
    ensures NoDelimiterLines(parts, delimiter)
  {
  }

  lemma SlicesUnfold(text: string, from: nat, delimiter: string)
    requires from <= |text|
    ensures var cut := CutAfter(text, from, delimiter);
      Slices(text, from, delimiter) ==
      if cut.NoCut? then []
      else if cut.resume.None? then [cut.part]
      else [cut.part] + Slices(text, cut.resume.value, delimiter)
  {
    hide CutAfter;
  }

  /** Splitting undoes joining exactly when no part holds a delimiter line. */
  lemma {:induction false} SplittingUndoesJoining(text: string, at: nat, parts: seq<string>, delimiter: string)
    requires at <= |text| && parts != [] && text[at..] == Joined(parts, delimiter)
    requires IsOneLine(delimiter) && delimiter != ""
    ensures at + |delimiter| <= |text|
    ensures Slices(text, at + |delimiter|, delimiter) == parts <==> NoDelimiterLines(parts, delimiter)
    decreases |parts|
  {
    hide Joined, HasDelimiterLine, FirstDelimiter, Find, Slices, CutAfter, NoDelimiterLines, StripTrailingLineEnding,
         IsDelimiterLine;
    var from := at + |delimiter|;
    var start := from + 2;
    var part := parts[0];
    var end := start + |part|;
    JoinedLayout(text, at, parts, delimiter);
    NewlineEndsDelimiterLine(text, from);
    JoinedStartsAnew(text, end + 2, start, parts[1..], delimiter);
    PartEnds(text, start, part, delimiter);
    NoDelimiterLinesCons(parts, delimiter);
    var next := FirstDelimiter(text, start, delimiter).value;
    CutStep(text, from, start, next, delimiter);
    SlicesUnfold(text, from, delimiter);
    var slices := Slices(text, from, delimiter);
    assert parts == [part] + parts[1..];
    if HasDelimiterLine(part, delimiter) {
      assert |slices[0]| < |part|;
    } else {
      LineEndIsStripped(text, start, part);
      JoinedTailLayout(text, next, parts[1..], delimiter);
      if parts[1..] == [] {
        NoDelimiterLinesNone(parts[1..], delimiter);
      } else {
        SplittingUndoesJoining(text, next, parts[1..], delimiter);
        var rest := Slices(text, next + |delimiter|, delimiter);
        assert slices == [part] + rest;
        assert slices[1..] == rest;
      }
    }
  }

  lemma ClosingLineCut(text: string, delimiter: string)
    requires |text| == |delimiter| + 4 && text[|delimiter|..] == "--\r\n" && delimiter != ""
    ensures CutAfter(text, |delimiter|, delimiter) == Cut("", None)
  {
    var n := |delimiter|;
    var tail := text[n..];
    assert text[n] == tail[0] && text[n + 1] == tail[1] && text[n + 2] == tail[2] && text[n + 3] == tail[3];
    NewlineEndsDelimiterLine(text, n + 2);
    assert Find(text, n, '\n') == Find(text, n + 1, '\n') == Find(text, n + 2, '\n');
    NoDelimiterAtEnd(text, delimiter);
    assert text[|text|..] == "";
    hide FirstDelimiter, Find;
  }

  lemma ClosingLine(delimiter: string)
    ensures var text := Joined([], delimiter);
      |text| == |delimiter| + 4 && text[|delimiter|..] == "--\r\n"
  {
    var text := Joined([], delimiter);
    var ending := "--" + "\r\n";
    assert text == delimiter + ending;
    assert text[|delimiter|..] == ending;
  }

  /** A multipart that holds only its closing delimiter is read as one empty part. */
  lemma NothingJoined(delimiter: string)
    requires delimiter != ""
    ensures Slices(Joined([], delimiter), |delimiter|, delimiter) == [""]
  {
    hide *;
    var text := Joined([], delimiter);
    ClosingLine(delimiter);
    ClosingLineCut(text, delimiter);
    SlicesUnfold(text, |delimiter|, delimiter);
  }

  lemma NoDelimiterAtEnd(text: string, delimiter: string)
    requires delimiter != ""
    ensures FirstDelimiter(text, |text|, delimiter).None?
  {
    if FirstDelimiter(text, |text|, delimiter).Some? {
      DelimiterFits(text, |text|, delimiter);
    }
  }
}
