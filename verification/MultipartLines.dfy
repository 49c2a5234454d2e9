// Splitting a multipart body whatever its line ends (section 5.1.1 of RFC 2046,
// crates/notm-mail/src/mime.rs): lines may end in CRLF or, as in stored mail, in
// LF alone, and blanks may follow a delimiter.
module MultipartLines {
  import opened MailText
  import opened Multipart
  import opened Preflight

  // ---- Delimiter lines, by what they are made of

  predicate AreBlanks(s: string) {
    forall k | 0 <= k < |s| :: s[k] == ' ' || s[k] == '\t'
  }

  predicate IsLineEnd(s: string) {
    s == "\n" || s == "\r\n"
  }

  /** Nothing, or a line end and what follows it. */
  predicate EndsThere(rest: string) {
    rest == "" || "\n" <= rest || "\r\n" <= rest
  }

  predicate IsTailOf(tail: string, marker: string, blanks: string, rest: string) {
    && tail == marker + blanks + rest && (marker == "" || marker == "--") && AreBlanks(blanks) && EndsThere(rest)
  }

  /** What may follow the delimiter: two dashes or none, blanks, the end of the line. */
  ghost predicate ClosesLine(tail: string) {
    exists marker, blanks, rest :: IsTailOf(tail, marker, blanks, rest)
  }

  lemma {:induction false} BlanksAreSkipped(text: string, i: nat, blanks: string, rest: string)
    requires i <= |text| && text[i..] == blanks + rest && AreBlanks(blanks) && EndsThere(rest)
    ensures SkipWsp(text, i) == i + |blanks|
    decreases |blanks|
  {
    assert |text| == i + |blanks| + |rest|;
    if blanks == "" {
      assert rest != "" ==> text[i] == rest[0];
    } else {
      assert text[i] == text[i..][0] == blanks[0];
      assert text[i + 1..] == text[i..][1..] == blanks[1..] + rest;
      BlanksAreSkipped(text, i + 1, blanks[1..], rest);
    }
  }

  lemma {:induction false} SkippedAreBlanks(text: string, i: nat)
    requires i <= |text|
    ensures AreBlanks(text[i..SkipWsp(text, i)])
    decreases |text| - i
  {
    if i < |text| && IsWsp(text[i]) {
      SkippedAreBlanks(text, i + 1);
      var end := SkipWsp(text, i);
      assert forall k | i < k < end :: text[k] == text[i + 1..end][k - i - 1];
    }
  }

  predicate LineEnds(text: string, end: nat)
    requires end <= |text|
  {
    end == |text| || text[end] == '\n' || (text[end] == '\r' && end + 1 < |text| && text[end + 1] == '\n')
  }

  lemma EndIsThere(text: string, end: nat)
    requires end <= |text|
    ensures EndsThere(text[end..]) <==> LineEnds(text, end)
  {
    var rest := text[end..];
    assert forall k | 0 <= k < |rest| :: rest[k] == text[end + k];
    assert "\n" <= rest <==> |rest| > 0 && rest[0] == '\n';
    assert "\r\n" <= rest <==> |rest| > 1 && rest[0] == '\r' && rest[1] == '\n';
  }

  lemma TailIsFound(text: string, i: nat, marker: string, blanks: string, rest: string)
    requires i <= |text| && IsTailOf(text[i..], marker, blanks, rest)
    ensures IsDelimiterTail(text, i)
  {
    hide SkipWsp, AreBlanks, EndsThere, IsMarker;
    assert marker + blanks + rest == marker + (blanks + rest);
    PieceAt(text, i, marker, blanks + rest);
    var after := i + |marker|;
    PieceAt(text, after, blanks, rest);
    BlanksAreSkipped(text, after, blanks, rest);
    EndIsThere(text, after + |blanks|);
    MarkerIs(text, i, marker, blanks, rest);
  }

  lemma MarkerIs(text: string, i: nat, marker: string, blanks: string, rest: string)
    requires i <= |text| && IsTailOf(text[i..], marker, blanks, rest)
    ensures IsMarker(text, i) <==> marker == "--"
  {
    var tail := text[i..];
    assert forall k | 0 <= k < |tail| :: tail[k] == text[i + k];
    if marker == "" && tail != "" {
      assert tail[0] == if blanks != "" then blanks[0] else rest[0];
    }
  }

  lemma CutTwice(text: string, i: nat, j: nat, k: nat)
    requires i <= j <= k <= |text|
    ensures text[i..] == text[i..j] + text[j..k] + text[k..]
  {
  }

  lemma FoundIsTail(text: string, i: nat)
    requires i <= |text| && IsDelimiterTail(text, i)
    ensures ClosesLine(text[i..])
  {
    var marker := if IsMarker(text, i) then "--" else "";
    var after := i + |marker|;
    var end := SkipWsp(text, after);
    SkippedAreBlanks(text, after);
    EndIsThere(text, end);
    hide SkipWsp, AreBlanks, EndsThere;
    assert marker == text[i..after];
    CutTwice(text, i, after, end);
    assert IsTailOf(text[i..], marker, text[after..end], text[end..]);
  }

  /** The scan accepts exactly what may follow a delimiter. */
  lemma TailIsExact(text: string, i: nat)
    requires i <= |text|
    ensures IsDelimiterTail(text, i) <==> ClosesLine(text[i..])
  {
    if IsDelimiterTail(text, i) {
      FoundIsTail(text, i);
    }
    if ClosesLine(text[i..]) {
      hide IsDelimiterTail, IsTailOf;
      var marker, blanks, rest :| IsTailOf(text[i..], marker, blanks, rest);
      TailIsFound(text, i, marker, blanks, rest);
    }
  }

  /** A delimiter line: at the start or after a line feed, the delimiter and what
      may follow it. */
  lemma DelimiterLineIs(text: string, start: nat, i: nat, delimiter: string)
    requires i <= |text|
    ensures IsDelimiterLine(text, start, i, delimiter) <==>
      && start <= i && (i == start || text[i - 1] == '\n')
      && delimiter <= text[i..] && ClosesLine(text[i..][|delimiter|..])
  {
    if i + |delimiter| <= |text| {
      TailIsExact(text, i + |delimiter|);
      assert text[i..][|delimiter|..] == text[i + |delimiter|..];
      assert text[i..][..|delimiter|] == text[i..i + |delimiter|];
    }
    hide IsDelimiterTail, ClosesLine;
  }

  // ---- Bodies with any line ends

  /** One part: blanks and a line end after its delimiter, and a line end after it. */
  datatype Piece = Piece(blanks: string, open: string, part: string, close: string)

  predicate IsPiece(p: Piece) {
    AreBlanks(p.blanks) && IsLineEnd(p.open) && IsLineEnd(p.close)
  }

  /** The pieces, then the closing delimiter and what follows it. */
  function Body(pieces: seq<Piece>, delimiter: string, blanks: string, after: string): string {
    if pieces == [] then delimiter + ("--" + (blanks + after))
    else
      var p := pieces[0];
      delimiter + (p.blanks + (p.open + (p.part + (p.close + Body(pieces[1..], delimiter, blanks, after)))))
  }

  function PartsOf(pieces: seq<Piece>): seq<string> {
    if pieces == [] then [] else [pieces[0].part] + PartsOf(pieces[1..])
  }

  /** A part that is found as it was written: it holds no delimiter line, and no
      carriage return at its end that would count as part of a line feed after it. */
  ghost predicate IsClean(p: Piece, delimiter: string) {
    && !HasDelimiterLine(p.part, delimiter)
    && (p.close == "\n" && p.part != "" ==> p.part[|p.part| - 1] != '\r')
  }

  ghost predicate AreClean(pieces: seq<Piece>, delimiter: string) {
    forall k | 0 <= k < |pieces| :: IsClean(pieces[k], delimiter)
  }

  predicate Holds(text: string, at: nat, piece: string)
    requires at + |piece| <= |text|
  {
    forall k | 0 <= k < |piece| :: piece[k] == text[at + k]
  }

  lemma HoldsSlice(text: string, at: nat, piece: string)
    requires at + |piece| <= |text|
    ensures Holds(text, at, piece) <==> text[at..at + |piece|] == piece
  {
    var slice := text[at..at + |piece|];
    assert forall k | 0 <= k < |slice| :: slice[k] == text[at + k];
  }

  /** Where a piece's part and its line end stand. */
  predicate StandsAt(text: string, start: nat, p: Piece) {
    && start + |p.part| + |p.close| <= |text|
    && Holds(text, start, p.part) && Holds(text, start + |p.part|, p.close)
  }

  lemma LayoutIs(text: string, at: nat, pieces: seq<Piece>, delimiter: string, blanks: string, after: string)
    requires at <= |text| && pieces != [] && text[at..] == Body(pieces, delimiter, blanks, after)
    ensures var p := pieces[0];
      var from := at + |delimiter|;
      var start := from + |p.blanks| + |p.open|;
      var next := start + |p.part| + |p.close|;
      && next <= |text| && text[at..from] == delimiter && text[from..] == p.blanks + (p.open + text[start..])
      && StandsAt(text, start, p) && text[next..] == Body(pieces[1..], delimiter, blanks, after)
  {
    var p := pieces[0];
    var rest := Body(pieces[1..], delimiter, blanks, after);
    var from := at + |delimiter|;
    var start := from + |p.blanks| + |p.open|;
    hide Body, Holds;
    BodyUnfolds(pieces, delimiter, blanks, after);
    PieceAt(text, at, delimiter, p.blanks + (p.open + (p.part + (p.close + rest))));
    PieceAt(text, from, p.blanks, p.open + (p.part + (p.close + rest)));
    PieceAt(text, from + |p.blanks|, p.open, p.part + (p.close + rest));
    PieceAt(text, start, p.part, p.close + rest);
    PieceAt(text, start + |p.part|, p.close, rest);
    HoldsSlice(text, start, p.part);
    HoldsSlice(text, start + |p.part|, p.close);
  }

  lemma BodyUnfolds(pieces: seq<Piece>, delimiter: string, blanks: string, after: string)
    requires pieces != []
    ensures var p := pieces[0];
      Body(pieces, delimiter, blanks, after) ==
        delimiter + (p.blanks + (p.open + (p.part + (p.close + Body(pieces[1..], delimiter, blanks, after)))))
  {
  }

  lemma {:induction false} NewlineAfterBlanks(text: string, from: nat, blanks: string, open: string, rest: string)
    requires from <= |text| && text[from..] == blanks + (open + rest) && AreBlanks(blanks) && IsLineEnd(open)
    ensures Find(text, from, '\n') == Some(from + |blanks| + |open| - 1)
    decreases |blanks|
  {
    assert forall k | from <= k < |text| :: text[k] == text[from..][k - from];
    if blanks == "" {
      assert text[from] == open[0];
      if open == "\r\n" {
        assert text[from + 1] == '\n';
        assert Find(text, from, '\n') == Find(text, from + 1, '\n');
      }
    } else {
      assert text[from] == blanks[0];
      assert text[from + 1..] == text[from..][1..] == blanks[1..] + (open + rest);
      NewlineAfterBlanks(text, from + 1, blanks[1..], open, rest);
    }
  }

  lemma OpenEndsThere(open: string, rest: string)
    requires IsLineEnd(open)
    ensures EndsThere(open + rest)
  {
    assert open <= open + rest;
  }

  /** A piece's delimiter is followed by what may follow one, and does not close. */
  lemma OpeningTail(text: string, at: nat, pieces: seq<Piece>, delimiter: string, blanks: string, after: string)
    requires at <= |text| && pieces != [] && text[at..] == Body(pieces, delimiter, blanks, after)
    requires IsPiece(pieces[0])
    ensures var from := at + |delimiter|;
      from + 2 <= |text| && text[at..from] == delimiter && IsDelimiterTail(text, from) && !IsMarker(text, from)
  {
    hide Body, IsDelimiterTail, IsMarker, AreBlanks, EndsThere, Holds;
    var p := pieces[0];
    var from := at + |delimiter|;
    LayoutIs(text, at, pieces, delimiter, blanks, after);
    var rest := p.open + text[from + |p.blanks| + |p.open|..];
    OpenEndsThere(p.open, text[from + |p.blanks| + |p.open|..]);
    assert text[from..] == "" + p.blanks + rest;
    TailIsFound(text, from, "", p.blanks, rest);
    MarkerIs(text, from, "", p.blanks, rest);
  }

  /** The last delimiter is followed by the closing marker. */
  lemma ClosingTail(text: string, at: nat, delimiter: string, blanks: string, after: string)
    requires at <= |text| && text[at..] == Body([], delimiter, blanks, after) && AreBlanks(blanks) && EndsThere(after)
    ensures var from := at + |delimiter|;
      from + 2 <= |text| && text[at..from] == delimiter && IsDelimiterTail(text, from) && IsMarker(text, from)
  {
    hide IsDelimiterTail, IsMarker, AreBlanks, EndsThere;
    var tail := "--" + (blanks + after);
    PieceAt(text, at, delimiter, tail);
    assert tail == "--" + blanks + after;
    TailIsFound(text, at + |delimiter|, "--", blanks, after);
    MarkerIs(text, at + |delimiter|, "--", blanks, after);
  }

  // ---- Where a part ends

  predicate EndsInReturn(p: Piece) {
    p.close == "\n" && p.part != "" && p.part[|p.part| - 1] == '\r'
  }

  lemma {:induction false} BlanksInPart(text: string, start: nat, p: Piece, i: nat)
    requires StandsAt(text, start, p) && IsLineEnd(p.close) && i <= |p.part|
    ensures SkipWsp(text, start + i) == start + SkipWsp(p.part, i)
    decreases |p.part| - i
  {
    if i < |p.part| {
      assert p.part[i] == text[start + i];
      if IsWsp(p.part[i]) {
        BlanksInPart(text, start, p, i + 1);
      }
    } else {
      assert text[start + i] == p.close[0];
    }
  }

  lemma TailInPiece(text: string, start: nat, p: Piece, i: nat)
    requires StandsAt(text, start, p) && IsLineEnd(p.close) && !EndsInReturn(p) && i <= |p.part|
    ensures IsDelimiterTail(text, start + i) == IsDelimiterTail(p.part, i)
  {
    MarkerInPiece(text, start, p, i);
    var after := if IsMarker(p.part, i) then i + 2 else i;
    BlanksInPart(text, start, p, after);
    EndInPiece(text, start, p, SkipWsp(p.part, after));
    hide SkipWsp, IsMarker, StandsAt, IsLineEnd, EndsInReturn;
  }

  lemma MarkerInPiece(text: string, start: nat, p: Piece, i: nat)
    requires StandsAt(text, start, p) && IsLineEnd(p.close) && i <= |p.part|
    ensures IsMarker(text, start + i) == IsMarker(p.part, i)
  {
    assert p.close[0] == text[start + |p.part|];
    assert i < |p.part| ==> p.part[i] == text[start + i];
    assert i + 1 < |p.part| ==> p.part[i + 1] == text[start + i + 1];
  }

  lemma EndInPiece(text: string, start: nat, p: Piece, end: nat)
    requires StandsAt(text, start, p) && IsLineEnd(p.close) && !EndsInReturn(p) && end <= |p.part|
    ensures LineEnds(text, start + end) == LineEnds(p.part, end)
  {
    assert p.close[0] == text[start + |p.part|];
    assert |p.close| == 2 ==> p.close[1] == text[start + |p.part| + 1];
    assert end < |p.part| ==> p.part[end] == text[start + end];
    assert end + 1 < |p.part| ==> p.part[end + 1] == text[start + end + 1];
  }

  /** No delimiter reaches into the line end after a part. */
  lemma DelimiterStaysInside(text: string, start: nat, p: Piece, i: nat, delimiter: string)
    requires StandsAt(text, start, p) && IsLineEnd(p.close) && IsOneLine(delimiter) && delimiter != ""
    requires i < |p.part| + |p.close| && i + |delimiter| > |p.part|
    ensures !IsMatch(text, start + i, delimiter)
  {
    var k := if i <= |p.part| then |p.part| - i else 0;
    assert p.close[i + k - |p.part|] == text[start + i + k];
    if start + i + |delimiter| <= |text| {
      assert text[start + i..start + i + |delimiter|][k] == text[start + i + k];
    }
  }

  lemma MatchInPiece(text: string, start: nat, p: Piece, i: nat, delimiter: string)
    requires StandsAt(text, start, p) && i + |delimiter| <= |p.part|
    ensures IsMatch(text, start + i, delimiter) <==> IsMatch(p.part, i, delimiter)
  {
    var n := i + |delimiter|;
    assert p.part[i..n] == text[start + i..start + n];
  }

  lemma DelimiterInPiece(text: string, start: nat, p: Piece, i: nat, delimiter: string)
    requires StandsAt(text, start, p) && IsLineEnd(p.close) && IsOneLine(delimiter) && delimiter != ""
    requires i < |p.part| + |p.close|
    ensures IsDelimiterLine(text, start, start + i, delimiter) ==> i + |delimiter| <= |p.part|
    ensures !EndsInReturn(p) ==>
      (IsDelimiterLine(text, start, start + i, delimiter) <==> IsDelimiterLine(p.part, 0, i, delimiter))
  {
    if i + |delimiter| > |p.part| {
      DelimiterStaysInside(text, start, p, i, delimiter);
    }
    assert 0 < i <= |p.part| ==> p.part[i - 1] == text[start + i - 1];
    if i + |delimiter| <= |p.part| {
      MatchInPiece(text, start, p, i, delimiter);
      if !EndsInReturn(p) {
        TailInPiece(text, start, p, i + |delimiter|);
      }
    }
    hide IsDelimiterTail, IsLineEnd, IsOneLine, StandsAt, EndsInReturn;
  }

  lemma SearchStaysInside(text: string, start: nat, p: Piece, delimiter: string)
    requires StandsAt(text, start, p) && IsLineEnd(p.close) && IsOneLine(delimiter) && delimiter != ""
    requires IsDelimiterLine(text, start, start + |p.part| + |p.close|, delimiter)
    ensures FirstDelimiter(text, start, delimiter).Some?
    ensures var next := start + |p.part| + |p.close|;
      var found := FirstDelimiter(text, start, delimiter).value;
      && start <= found <= next && IsDelimiterLine(text, start, found, delimiter)
      && (found < next ==> found < start + |p.part|)
      && (found < next && !EndsInReturn(p) ==> IsDelimiterLine(p.part, 0, found - start, delimiter))
  {
    hide IsDelimiterLine, IsOneLine, EndsInReturn, IsLineEnd, StandsAt;
    var next := start + |p.part| + |p.close|;
    LeastDelimiter(text, start, next, delimiter);
    var found := FirstDelimiter(text, start, delimiter).value;
    DelimiterFits(text, start, delimiter);
    if found < next {
      DelimiterInPiece(text, start, p, found - start, delimiter);
    }
  }

  /** The search from a part's start ends at a line inside it or at the next delimiter. */
  lemma PieceEnds(text: string, start: nat, p: Piece, delimiter: string)
    requires StandsAt(text, start, p) && IsLineEnd(p.close) && IsOneLine(delimiter) && delimiter != ""
    requires IsDelimiterLine(text, start, start + |p.part| + |p.close|, delimiter)
    ensures FirstDelimiter(text, start, delimiter).Some?
    ensures var next := start + |p.part| + |p.close|;
      var found := FirstDelimiter(text, start, delimiter).value;
      && (found == next || (start <= found < start + |p.part| && (found == start || text[found - 1] == '\n')))
      && (!EndsInReturn(p) ==> (found == next <==> !HasDelimiterLine(p.part, delimiter)))
  {
    hide IsDelimiterTail, IsOneLine, EndsInReturn, IsLineEnd, StandsAt, FirstDelimiter, IsMatch;
    SearchStaysInside(text, start, p, delimiter);
    if HasDelimiterLine(p.part, delimiter) && !EndsInReturn(p) {
      var i: nat :| IsDelimiterLine(p.part, 0, i, delimiter);
      MatchFits(p.part, i, delimiter);
      DelimiterInPiece(text, start, p, i, delimiter);
      LeastDelimiter(text, start, start + i, delimiter);
    }
  }

  lemma MatchFits(text: string, i: nat, needle: string)
    requires IsMatch(text, i, needle)
    ensures i + |needle| <= |text|
  {
  }

  /** What is cut for a piece is its part exactly when the piece is clean. */
  lemma CutIsPart(text: string, start: nat, p: Piece, delimiter: string, found: nat)
    requires StandsAt(text, start, p) && IsLineEnd(p.close) && IsOneLine(delimiter) && delimiter != ""
    requires IsDelimiterLine(text, start, start + |p.part| + |p.close|, delimiter)
    requires FirstDelimiter(text, start, delimiter) == Some(found)
    ensures start <= found <= |text|
    ensures IsClean(p, delimiter) ==> found == start + |p.part| + |p.close|
    ensures text[start..StripTrailingLineEnding(text, start, found)] == p.part <==> IsClean(p, delimiter)
  {
    var next := start + |p.part| + |p.close|;
    PieceEnds(text, start, p, delimiter);
    hide FirstDelimiter, IsDelimiterLine, HasDelimiterLine;
    HoldsSlice(text, start, p.part);
    assert p.close[0] == text[start + |p.part|];
    assert |p.close| == 2 ==> p.close[1] == text[start + |p.part| + 1];
    assert p.part != "" ==> p.part[|p.part| - 1] == text[start + |p.part| - 1];
  }

  lemma AreCleanCons(pieces: seq<Piece>, delimiter: string)
    requires pieces != []
    ensures AreClean(pieces, delimiter) <==> IsClean(pieces[0], delimiter) && AreClean(pieces[1..], delimiter)
  {
    hide IsClean;
    var rest := pieces[1..];
    assert forall k | 0 <= k < |rest| :: rest[k] == pieces[k + 1];
    assert forall k | 0 < k < |pieces| :: pieces[k] == rest[k - 1];
  }

  predicate ArePieces(pieces: seq<Piece>) {
    forall k | 0 <= k < |pieces| :: IsPiece(pieces[k])
  }

  lemma ArePiecesCons(pieces: seq<Piece>)
    requires pieces != [] && ArePieces(pieces)
    ensures IsPiece(pieces[0]) && ArePieces(pieces[1..])
    ensures AreBlanks(pieces[0].blanks) && IsLineEnd(pieces[0].open) && IsLineEnd(pieces[0].close)
  {
    hide AreBlanks, IsLineEnd;
  }

  /** The next delimiter is a delimiter line, and closes the body if no piece follows. */
  lemma DelimiterFollows(text: string, at: nat, start: nat, pieces: seq<Piece>, delimiter: string, blanks: string,
                         after: string)
    requires start < at <= |text| && text[at - 1] == '\n' && text[at..] == Body(pieces, delimiter, blanks, after)
    requires AreBlanks(blanks) && EndsThere(after) && (pieces != [] ==> IsPiece(pieces[0]))
    ensures IsDelimiterLine(text, start, at, delimiter)
    ensures var end := at + |delimiter|;
      end <= |text| && (end + 2 > |text| || IsMarker(text, end) <==> pieces == [])
  {
    hide Body, IsDelimiterTail, AreBlanks, EndsThere;
    if pieces == [] {
      ClosingTail(text, at, delimiter, blanks, after);
    } else {
      OpeningTail(text, at, pieces, delimiter, blanks, after);
    }
  }

  lemma PieceCut(text: string, at: nat, pieces: seq<Piece>, delimiter: string, blanks: string, after: string)
    returns (next: nat)
    requires at <= |text| && pieces != [] && text[at..] == Body(pieces, delimiter, blanks, after)
    requires ArePieces(pieces) && AreBlanks(blanks) && EndsThere(after) && IsOneLine(delimiter) && delimiter != ""
    ensures at < next <= |text| && text[next..] == Body(pieces[1..], delimiter, blanks, after)
    ensures next + |delimiter| <= |text| && at + |delimiter| <= |text|
    ensures var cut := CutAfter(text, at + |delimiter|, delimiter);
      && cut.Cut? && (cut.part == pieces[0].part <==> IsClean(pieces[0], delimiter))
      && (IsClean(pieces[0], delimiter) ==>
          cut.resume == if pieces[1..] == [] then None else Some(next + |delimiter|))
  {
    hide *;
    var p := pieces[0];
    var from := at + |delimiter|;
    var start := from + |p.blanks| + |p.open|;
    next := start + |p.part| + |p.close|;
    ArePiecesCons(pieces);
    LayoutIs(text, at, pieces, delimiter, blanks, after);
    NewlineAfterBlanks(text, from, p.blanks, p.open, text[start..]);
    NewlineBefore(text, start, p);
    if pieces[1..] != [] {
      ArePiecesCons(pieces[1..]);
    }
    DelimiterFollows(text, next, start, pieces[1..], delimiter, blanks, after);
    LeastDelimiter(text, start, next, delimiter);
    var found := FirstDelimiter(text, start, delimiter).value;
    CutIsPart(text, start, p, delimiter, found);
    CutStep(text, from, start, found, delimiter);
  }

  lemma NewlineBefore(text: string, start: nat, p: Piece)
    requires StandsAt(text, start, p) && IsLineEnd(p.close)
    ensures p.close != "" && start + |p.part| + |p.close| <= |text|
    ensures text[start + |p.part| + |p.close| - 1] == '\n'
  {
    assert p.close[|p.close| - 1] == '\n';
  }

  /** Whatever line ends a body has, and whatever blanks follow its delimiters, it is
      split into its parts exactly when each is clean. */
  lemma {:induction false} SplittingUndoesAnyJoining(text: string, at: nat, pieces: seq<Piece>, delimiter: string,
                                                     blanks: string, after: string)
    requires at <= |text| && pieces != [] && text[at..] == Body(pieces, delimiter, blanks, after)
    requires ArePieces(pieces) && AreBlanks(blanks) && EndsThere(after) && IsOneLine(delimiter) && delimiter != ""
    ensures at + |delimiter| <= |text|
    ensures Slices(text, at + |delimiter|, delimiter) == PartsOf(pieces) <==> AreClean(pieces, delimiter)
    decreases |pieces|
  {
    hide Body, HasDelimiterLine, Slices, CutAfter, AreClean, IsClean, IsPiece, IsOneLine, AreBlanks, EndsThere;
    var next := PieceCut(text, at, pieces, delimiter, blanks, after);
    var from := at + |delimiter|;
    SlicesUnfold(text, from, delimiter);
    AreCleanCons(pieces, delimiter);
    ArePiecesCons(pieces);
    var slices := Slices(text, from, delimiter);
    assert slices[0] == CutAfter(text, from, delimiter).part;
    if IsClean(pieces[0], delimiter) {
      if pieces[1..] == [] {
        assert AreClean(pieces[1..], delimiter) by {
          NoneIsUnclean(delimiter);
        }
      } else {
        SplittingUndoesAnyJoining(text, next, pieces[1..], delimiter, blanks, after);
        assert slices[1..] == Slices(text, next + |delimiter|, delimiter);
        assert PartsOf(pieces)[1..] == PartsOf(pieces[1..]);
      }
    }
  }

  lemma NoneIsUnclean(delimiter: string)
    ensures AreClean([], delimiter)
  {
  }

  /** The preamble of a body: nothing, or a clean lead and its line end. */
  ghost predicate IsPreamble(lead: string, close: string, delimiter: string) {
    || (lead == "" && close == "")
    || (IsLineEnd(close) && IsClean(Piece("", "\n", lead, close), delimiter))
  }

  lemma LeadStands(raw: string, at: nat, p: Piece)
    requires at + |p.part| + |p.close| <= |raw| && raw[at..at + |p.part|] == p.part
    requires raw[at + |p.part|..at + |p.part| + |p.close|] == p.close
    ensures StandsAt(raw, at, p)
  {
    hide Holds;
    HoldsSlice(raw, at, p.part);
    HoldsSlice(raw, at + |p.part|, p.close);
  }

  lemma PreambleEnds(raw: string, start: nat, lead: string, close: string, delimiter: string)
    requires start + |lead| + |close| <= |raw| && raw[start..start + |lead|] == lead
    requires raw[start + |lead|..start + |lead| + |close|] == close && IsPreamble(lead, close, delimiter)
    requires IsOneLine(delimiter) && delimiter != ""
    requires var at := start + |lead| + |close|;
      close == "" || raw[at - 1] == '\n' ==> IsDelimiterLine(raw, start, at, delimiter)
    ensures FirstDelimiter(raw, start, delimiter) == Some(start + |lead| + |close|)
  {
    hide HasDelimiterLine, FirstDelimiter, IsOneLine, StandsAt, IsDelimiterTail;
    if close == "" {
      FirstDelimiterUnique(raw, start, start, delimiter);
    } else {
      var p := Piece("", "\n", lead, close);
      LeadStands(raw, start, p);
      NewlineBefore(raw, start, p);
      PieceEnds(raw, start, p, delimiter);
    }
  }

  lemma BodyIsFound(raw: string, bodyStart: nat, lead: string, close: string, pieces: seq<Piece>, delimiter: string,
                    blanks: string, after: string)
    requires bodyStart <= |raw| && raw[bodyStart..] == lead + (close + Body(pieces, delimiter, blanks, after))
    requires IsPreamble(lead, close, delimiter) && pieces != [] && ArePieces(pieces)
    requires AreBlanks(blanks) && EndsThere(after) && IsOneLine(delimiter) && delimiter != ""
    ensures var at := bodyStart + |lead| + |close|;
      && at < |raw| && raw[at..] == Body(pieces, delimiter, blanks, after)
      && FirstDelimiter(raw, bodyStart, delimiter) == Some(at)
  {
    hide Body, HasDelimiterLine, FirstDelimiter, IsOneLine, AreBlanks, EndsThere, IsMarker, IsDelimiterTail, IsClean,
         ArePieces;
    var body := Body(pieces, delimiter, blanks, after);
    var at := bodyStart + |lead| + |close|;
    PieceAt(raw, bodyStart, lead, close + body);
    PieceAt(raw, bodyStart + |lead|, close, body);
    ArePiecesCons(pieces);
    OpeningTail(raw, at, pieces, delimiter, blanks, after);
    assert close == "" ==> at == bodyStart by {
      assert IsPreamble(lead, close, delimiter);
    }
    PreambleEnds(raw, bodyStart, lead, close, delimiter);
  }

  /** A stored message is walked part by part whatever its line ends: its children
      are the parts exactly when each is clean. */
  lemma AnyBodyIsWalked(raw: string, bodyStart: nat, lead: string, close: string, pieces: seq<Piece>,
                        boundary: string, blanks: string, after: string, read: string -> Headers)
    requires read(raw) == Composite(bodyStart, boundary) && bodyStart <= |raw| && IsOneLine(boundary)
    requires raw[bodyStart..] == lead + (close + Body(pieces, "--" + boundary, blanks, after))
    requires IsPreamble(lead, close, "--" + boundary) && pieces != [] && ArePieces(pieces)
    requires AreBlanks(blanks) && EndsThere(after)
    ensures Children(raw, read) == PartsOf(pieces) <==> AreClean(pieces, "--" + boundary)
  {
    hide *;
    var delimiter := Delimiter(boundary);
    DelimiterIs(boundary);
    DelimiterIsOneLine(boundary);
    BodyIsFound(raw, bodyStart, lead, close, pieces, delimiter, blanks, after);
    SplittingUndoesAnyJoining(raw, bodyStart + |lead| + |close|, pieces, delimiter, blanks, after);
    ChildrenUnfold(raw, read);
  }

  lemma DelimiterIs(boundary: string)
    ensures Delimiter(boundary) == "--" + boundary
  {
  }
}
