// How a folded header lies on lines (sections 2.1.1 and 2.2.3 of RFC 5322,
// crates/notm-mail/src/rfc5322.rs).
module HeaderFolding {
  import opened MailText
  import opened ThreadingHeader

  /** Lines of tokens after one space each. */
  function Lines(lines: seq<seq<string>>): string {
    if lines == [] then ""
    else if |lines| == 1 then Spaced(lines[0])
    else Spaced(lines[0]) + ("\r\n" + Lines(lines[1..]))
  }

  function Flat(lines: seq<seq<string>>): seq<string> {
    if lines == [] then [] else lines[0] + Flat(lines[1..])
  }

  /** How long a line of tokens is, after what already stands on it. */
  function Width(column: nat, line: seq<string>): nat {
    column + ByteLength(Spaced(line))
  }

  /** A line within the limit, unless it is a single token on a line of its own. */
  predicate KeepsToLimit(line: seq<string>, column: nat) {
    |line| > 0 && (column > 0 || |line| > 1) ==> Width(column, line) <= RECOMMENDED_HEADER_LINE_LENGTH
  }

  /** Lines that keep to the limit, and break only where the next token would not. */
  ghost predicate AreGreedy(lines: seq<seq<string>>, column: nat) {
    && lines != [] && KeepsToLimit(lines[0], column)
    && (|lines| > 1 ==>
          && lines[1] != [] && AreGreedy(lines[1..], 0)
          && Width(column, lines[0]) + 1 + ByteLength(lines[1][0]) > RECOMMENDED_HEADER_LINE_LENGTH)
  }

  lemma {:induction false} SpacedGrows(line: seq<string>, token: string)
    ensures Spaced(line + [token]) == Spaced(line) + (" " + token)
    decreases |line|
  {
    var grown := line + [token];
    if line == [] {
      assert grown[1..] == [];
      assert " " + token + "" == "" + (" " + token);
    } else {
      SpacedGrows(line[1..], token);
      assert grown[1..] == line[1..] + [token];
      assert " " + line[0] + (Spaced(line[1..]) + (" " + token)) == " " + line[0] + Spaced(line[1..]) + (" " + token);
    }
  }

  lemma WidthGrows(column: nat, line: seq<string>, token: string)
    ensures Width(column, line + [token]) == Width(column, line) + 1 + ByteLength(token)
  {
    SpacedGrows(line, token);
    ByteLengthConcat(Spaced(line), " " + token);
    ByteLengthConcat(" ", token);
    AsciiByteLength(" ");
    hide Spaced;
  }

  lemma LinesUnfold(line: seq<string>, rest: seq<seq<string>>)
    requires rest != []
    ensures Lines([line] + rest) == Spaced(line) + ("\r\n" + Lines(rest))
    ensures Flat([line] + rest) == line + Flat(rest)
  {
    assert ([line] + rest)[1..] == rest;
    hide Spaced;
  }

  lemma {:induction false} FoldedLines(column: nat, line: seq<string>, tokens: seq<string>)
    returns (lines: seq<seq<string>>)
    requires KeepsToLimit(line, column)
    ensures Spaced(line) + Folded(tokens, Width(column, line)) == Lines(lines) && Flat(lines) == line + tokens
    ensures AreGreedy(lines, column) && |line| <= |lines[0]| && lines[0][..|line|] == line
    decreases |tokens|
  {
    hide Spaced, Width, ByteLength, Folded, Lines;
    if tokens == [] {
      lines := [line];
      LastLine(column, line);
    } else {
      var token, rest := tokens[0], tokens[1..];
      FoldedUnfolds(tokens, Width(column, line));
      WidthGrows(column, line, token);
      if FitsOnLine(Width(column, line), token) {
        lines := FoldedLines(column, line + [token], rest);
        SpacedGrows(line, token);
        Regroup(Spaced(line), " " + token, Folded(rest, Width(column, line + [token])));
        assert line + [token] + rest == line + tokens;
      } else {
        WidthGrows(0, [], token);
        NothingOnLine(token);
        var more := FoldedLines(0, [token], rest);
        lines := [line] + more;
        assert lines[1..] == more && more[0][0] == token;
        LinesUnfold(line, more);
        assert [token] + rest == tokens;
        assert "\r\n " + token + Folded(rest, 1 + ByteLength(token)) ==
               "\r\n" + (" " + token + Folded(rest, 1 + ByteLength(token)));
      }
    }
  }

  lemma Regroup(a: string, b: string, c: string)
    ensures (a + b) + c == a + (b + c)
  {
  }

  lemma NothingOnLine(token: string)
    ensures [] + [token] == [token] && Width(0, []) == 0 && Spaced([token]) == " " + token
  {
    assert [token][1..] == [];
    assert " " + token + "" == " " + token;
  }

  lemma LastLine(column: nat, line: seq<string>)
    requires KeepsToLimit(line, column)
    ensures Spaced(line) + Folded([], Width(column, line)) == Lines([line]) && Flat([line]) == line + []
    ensures AreGreedy([line], column)
  {
    hide Spaced, Width;
  }

  lemma FoldedUnfolds(tokens: seq<string>, column: nat)
    requires tokens != []
    ensures Folded(tokens, column) ==
      if FitsOnLine(column, tokens[0]) then
        (" " + tokens[0]) + Folded(tokens[1..], column + 1 + ByteLength(tokens[0]))
      else
        "\r\n " + tokens[0] + Folded(tokens[1..], 1 + ByteLength(tokens[0]))
  {
    hide ByteLength;
  }

  /** A folded header keeps its tokens in order on lines of at most 78 bytes, a
      single longer token apart, and breaks only where the next token would not fit. */
  lemma FoldingIsGreedy(tokens: seq<string>, column: nat) returns (lines: seq<seq<string>>)
    ensures Folded(tokens, column) == Lines(lines) && Flat(lines) == tokens && AreGreedy(lines, column)
  {
    hide Folded, Lines, AreGreedy;
    assert Width(column, []) == column;
    lines := FoldedLines(column, [], tokens);
    assert [] + tokens == tokens && "" + Folded(tokens, column) == Folded(tokens, column);
  }

  // ---- What unfolding accepts

  /** A character that stays, or a line break that does not. */
  datatype Piece = Kept(c: char) | Break(end: string)

  /** White space, or no control character of ASCII. */
  predicate MayStay(c: char) {
    c == '\t' || (' ' <= c && c as int != 127)
  }

  predicate IsFolded(pieces: seq<Piece>) {
    pieces == [] ||
    match pieces[0]
    case Kept(c) => MayStay(c) && IsFolded(pieces[1..])
    case Break(end) =>
      && (end == "\n" || end == "\r\n")
      && |pieces| > 1 && pieces[1].Kept? && (pieces[1].c == ' ' || pieces[1].c == '\t') && IsFolded(pieces[1..])
  }

  function RawText(pieces: seq<Piece>): string {
    if pieces == [] then ""
    else (match pieces[0] case Kept(c) => [c] case Break(end) => end) + RawText(pieces[1..])
  }

  function KeptText(pieces: seq<Piece>): string {
    if pieces == [] then ""
    else (match pieces[0] case Kept(c) => [c] case Break(end) => "") + KeptText(pieces[1..])
  }

  lemma KeepsOne(c: char, rest: string)
    requires MayStay(c) && Unfolded(rest).Some?
    ensures Unfolded([c] + rest) == Some([c] + Unfolded(rest).value)
  {
    assert ([c] + rest)[1..] == rest;
  }

  lemma DropsBreak(end: string, rest: string)
    requires (end == "\n" || end == "\r\n") && rest != "" && IsWsp(rest[0])
    ensures Unfolded(end + rest) == Unfolded(rest)
  {
    assert (end + rest)[|end|..] == rest;
  }

  lemma {:induction false} FoldedUnfoldsTo(pieces: seq<Piece>)
    requires IsFolded(pieces)
    ensures Unfolded(RawText(pieces)) == Some(KeptText(pieces))
    decreases |pieces|
  {
    hide Unfolded;
    if pieces == [] {
      NothingUnfolds();
    } else {
      var rest := RawText(pieces[1..]);
      FoldedUnfoldsTo(pieces[1..]);
      match pieces[0] {
        case Kept(c) => KeepsOne(c, rest);
        case Break(end) =>
          assert rest[0] == pieces[1].c;
          DropsBreak(end, rest);
          assert "" + KeptText(pieces[1..]) == KeptText(pieces[1..]);
      }
    }
  }

  lemma NothingUnfolds()
    ensures Unfolded("") == Some("")
  {
  }

  lemma PiecesCons(p: Piece, rest: seq<Piece>)
    ensures ([p] + rest)[1..] == rest
    ensures RawText([p] + rest) == (if p.Kept? then [p.c] else p.end) + RawText(rest)
    ensures IsFolded([p] + rest) <==>
      if p.Kept? then MayStay(p.c) && IsFolded(rest)
      else
        && (p.end == "\n" || p.end == "\r\n") && IsFolded(rest)
        && rest != [] && rest[0].Kept? && (rest[0].c == ' ' || rest[0].c == '\t')
  {
    assert ([p] + rest)[1..] == rest;
  }

  lemma {:induction false} UnfoldedIsFolded(raw: string) returns (pieces: seq<Piece>)
    requires Unfolded(raw).Some?
    ensures IsFolded(pieces) && RawText(pieces) == raw
    ensures raw != "" && MayStay(raw[0]) ==> pieces != [] && pieces[0] == Kept(raw[0])
    decreases |raw|
  {
    hide IsFolded, RawText;
    if raw == "" {
      pieces := [];
      NoPieces();
    } else {
      var n := if raw[0] == '\r' then 2 else 1;
      var rest := UnfoldedIsFolded(raw[n..]);
      var first := if raw[0] == '\r' || raw[0] == '\n' then Break(raw[..n]) else Kept(raw[0]);
      assert n == 2 ==> raw[..2] == [raw[0], raw[1]];
      assert raw[..n] + raw[n..] == raw;
      pieces := [first] + rest;
      PiecesCons(first, rest);
    }
  }

  lemma NoPieces()
    ensures IsFolded([]) && RawText([]) == "" && KeptText([]) == ""
  {
  }

  /** A raw field unfolds, and to this text, exactly if it is the text with line
      breaks of either kind before white space, and holds no other control. */
  lemma UnfoldingIsExact(raw: string, text: string)
    ensures Unfolded(raw) == Some(text) <==>
      exists pieces :: IsFolded(pieces) && RawText(pieces) == raw && KeptText(pieces) == text
  {
    hide *;
    if Unfolded(raw) == Some(text) {
      var pieces := UnfoldedIsFolded(raw);
      FoldedUnfoldsTo(pieces);
    }
    if pieces :| IsFolded(pieces) && RawText(pieces) == raw && KeptText(pieces) == text {
      FoldedUnfoldsTo(pieces);
    }
  }
}
