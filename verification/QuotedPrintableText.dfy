// Quoted-printable bodies as they are written (section 6.7 of RFC 2045): literal
// bytes, hexadecimal escapes of either case, soft breaks and line ends of either
// kind are accepted, and decode to what they stand for.
module QuotedPrintableText {
  import opened MailText
  import opened QuotedPrintable

  datatype Piece = Literal(c: char) | Hex(high: char, low: char) | SoftBreak(end: string) | LineBreak(end: string)

  predicate IsEnd(end: string) {
    end == "\n" || end == "\r\n"
  }

  predicate IsDigit(c: char) {
    '0' <= c <= '9' || 'A' <= c <= 'F' || 'a' <= c <= 'f'
  }

  predicate IsSpace(c: char) {
    c == ' ' || c == '\t'
  }

  predicate IsPiece(p: Piece) {
    match p
    case Literal(c) => (IsSpace(c) || '!' <= c <= '~') && c != '='
    case Hex(high, low) => IsDigit(high) && IsDigit(low)
    case SoftBreak(end) => IsEnd(end)
    case LineBreak(end) => IsEnd(end)
  }

  /** What the validator lets pass: line ends count as bytes like any other. */
  predicate IsAllowed(p: Piece) {
    IsPiece(p) || p == Literal('\r') || p == Literal('\n')
  }

  predicate AreAllowed(pieces: seq<Piece>) {
    forall k | 0 <= k < |pieces| :: IsAllowed(pieces[k])
  }

  /** White space is a literal only if something else follows on its line. */
  predicate AreWritten(pieces: seq<Piece>) {
    && (forall k | 0 <= k < |pieces| :: IsPiece(pieces[k]))
    && (forall k | 0 <= k < |pieces| && pieces[k].Literal? && IsSpace(pieces[k].c) ::
          k + 1 < |pieces| && !pieces[k + 1].LineBreak?)
  }

  function PieceText(p: Piece): string {
    match p
    case Literal(c) => [c]
    case Hex(high, low) => ['=', high, low]
    case SoftBreak(end) => "=" + end
    case LineBreak(end) => end
  }

  function Text(pieces: seq<Piece>): string {
    if pieces == [] then "" else PieceText(pieces[0]) + Text(pieces[1..])
  }

  function Digit(c: char): (v: int)
    requires IsDigit(c)
    ensures 0 <= v < 16
  {
    if c <= '9' then c as int - '0' as int else if c <= 'F' then c as int - 55 else c as int - 87
  }

  function PieceBytes(p: Piece): string
    requires IsPiece(p)
  {
    match p
    case Literal(c) => [c]
    case Hex(high, low) => [(16 * Digit(high) + Digit(low)) as char]
    case SoftBreak(_) => ""
    case LineBreak(_) => "\r\n"
  }

  function BytesOf(pieces: seq<Piece>): string
    requires AreWritten(pieces)
  {
    if pieces == [] then "" else PieceBytes(pieces[0]) + BytesOf(pieces[1..])
  }

  // ---- One piece

  lemma WrittenCons(pieces: seq<Piece>)
    requires AreWritten(pieces) && pieces != []
    ensures IsPiece(pieces[0]) && AreWritten(pieces[1..])
    ensures pieces[0].Literal? && IsSpace(pieces[0].c) ==> pieces[1..] != [] && !pieces[1..][0].LineBreak?
  {
    hide IsPiece;
    var rest := pieces[1..];
    assert forall k | 0 <= k < |rest| :: rest[k] == pieces[k + 1];
  }

  lemma PieceStarts(raw: string, i: nat, p: Piece, rest: string)
    requires i <= |raw| && raw[i..] == PieceText(p) + rest && IsAllowed(p)
    ensures i + |PieceText(p)| <= |raw| && raw[i + |PieceText(p)|..] == rest
    ensures forall k | 0 <= k < |PieceText(p)| :: raw[i + k] == PieceText(p)[k]
    ensures PieceText(p) != "" && |PieceText(p)| <= 3
  {
    PieceAt(raw, i, PieceText(p), rest);
    assert forall k | 0 <= k < |PieceText(p)| :: raw[i + k] == raw[i..][k];
  }

  /** White space that is followed by something else does not trail. */
  lemma {:induction false} SpaceIsKept(raw: string, i: nat, pieces: seq<Piece>)
    requires i <= |raw| && raw[i..] == Text(pieces) && AreWritten(pieces) && pieces != [] && !pieces[0].LineBreak?
    ensures SkipTrailing(raw, i) < |raw| && raw[SkipTrailing(raw, i)] != '\n'
    decreases |pieces|
  {
    hide AreWritten;
    WrittenCons(pieces);
    PieceStarts(raw, i, pieces[0], Text(pieces[1..]));
    assert raw[i + 0] == PieceText(pieces[0])[0];
    if pieces[0].Literal? && IsSpace(pieces[0].c) {
      SpaceIsKept(raw, i + 1, pieces[1..]);
    }
  }

  lemma EscapeIsRead(raw: string, i: nat, p: Piece, rest: string)
    requires i <= |raw| && raw[i..] == PieceText(p) + rest && IsPiece(p) && (p.Hex? || p.SoftBreak?)
    ensures i < |raw| && raw[i] == '=' && EscapeLength(raw, i) == |PieceText(p)|
    ensures p.Hex? <==> IsHexPair(raw, i + 1)
    ensures p.Hex? ==> raw[i + 1] == p.high && raw[i + 2] == p.low
  {
    PieceStarts(raw, i, p, rest);
    var text := PieceText(p);
    assert raw[i + 0] == text[0] && raw[i + 1] == text[1] && (|text| == 3 ==> raw[i + 2] == text[2]);
  }

  lemma AllowedCons(pieces: seq<Piece>)
    requires AreAllowed(pieces) && pieces != []
    ensures IsAllowed(pieces[0]) && AreAllowed(pieces[1..])
  {
    hide IsAllowed;
  }

  lemma TextUnfolds(pieces: seq<Piece>)
    requires pieces != []
    ensures Text(pieces) == PieceText(pieces[0]) + Text(pieces[1..])
  {
  }

  lemma EscapesUnfold(raw: string, i: nat)
    requires i < |raw| && raw[i] == '='
    ensures EscapesAreValid(raw, i) <==> EscapeLength(raw, i) != 0 && EscapesAreValid(raw, i + EscapeLength(raw, i))
  {
    hide EscapeLength;
  }

  lemma NothingIsValid(raw: string, i: nat)
    requires i <= |raw| && raw[i..] == Text([])
    ensures EscapesAreValid(raw, i)
  {
    assert |raw[i..]| == |raw| - i;
  }

  lemma AllowedEscape(p: Piece)
    requires IsAllowed(p) && (p.Hex? || p.SoftBreak?)
    ensures IsPiece(p)
  {
  }

  lemma {:induction false} AllowedIsValid(raw: string, i: nat, pieces: seq<Piece>)
    requires i <= |raw| && raw[i..] == Text(pieces) && AreAllowed(pieces)
    ensures EscapesAreValid(raw, i)
    decreases |pieces|
  {
    hide *;
    if pieces == [] {
      NothingIsValid(raw, i);
    } else {
      var p, rest := pieces[0], Text(pieces[1..]);
      AllowedCons(pieces);
      TextUnfolds(pieces);
      PieceStarts(raw, i, p, rest);
      AllowedIsValid(raw, i + |PieceText(p)|, pieces[1..]);
      if p.Hex? || p.SoftBreak? {
        AllowedEscape(p);
        EscapeIsRead(raw, i, p, rest);
        EscapesUnfold(raw, i);
      } else {
        NoEscape(raw, i, p);
      }
    }
  }

  lemma NoEscape(raw: string, i: nat, p: Piece)
    requires i + |PieceText(p)| <= |raw| && IsAllowed(p) && (p.Literal? || p.LineBreak?)
    requires forall k | 0 <= k < |PieceText(p)| :: raw[i + k] == PieceText(p)[k]
    ensures EscapesAreValid(raw, i + |PieceText(p)|) ==> EscapesAreValid(raw, i)
  {
    assert raw[i + 0] == PieceText(p)[0];
    if |PieceText(p)| == 2 {
      assert raw[i + 1] == PieceText(p)[1];
      assert EscapesAreValid(raw, i) == EscapesAreValid(raw, i + 1) == EscapesAreValid(raw, i + 2);
    }
  }

  lemma {:induction false} BytesAreAllowed(pieces: seq<Piece>)
    requires AreAllowed(pieces)
    ensures forall k | 0 <= k < |Text(pieces)| :: IsLineByte(Text(pieces)[k]) || Text(pieces)[k] == '\n'
    decreases |pieces|
  {
    if pieces != [] {
      BytesAreAllowed(pieces[1..]);
      assert IsAllowed(pieces[0]);
    }
  }

  lemma LiteralIsThere(raw: string, i: nat)
    requires i < |raw| && raw[i] != '=' && (IsLineByte(raw[i]) || raw[i] == '\n')
    ensures IsAllowed(Literal(raw[i])) && raw[i..i + 1] == PieceText(Literal(raw[i]))
    ensures EscapesAreValid(raw, i) ==> EscapesAreValid(raw, i + 1)
  {
  }

  lemma HexIsThere(raw: string, i: nat)
    requires i < |raw| && raw[i] == '=' && IsHexPair(raw, i + 1)
    ensures i + 3 <= |raw| && EscapeLength(raw, i) == 3
    ensures IsAllowed(Hex(raw[i + 1], raw[i + 2])) && raw[i..i + 3] == PieceText(Hex(raw[i + 1], raw[i + 2]))
  {
  }

  lemma SoftBreakIsThere(raw: string, i: nat)
    requires i < |raw| && raw[i] == '=' && !IsHexPair(raw, i + 1) && EscapeLength(raw, i) != 0
    ensures var next := i + EscapeLength(raw, i);
      i < next <= |raw| && IsAllowed(SoftBreak(raw[i + 1..next]))
      && raw[i..next] == PieceText(SoftBreak(raw[i + 1..next]))
  {
    var end := raw[i + 1..i + EscapeLength(raw, i)];
    assert |end| == 2 ==> end == [raw[i + 1], raw[i + 2]];
    assert |end| == 1 ==> end == [raw[i + 1]];
  }

  /** The piece at a position of a valid body. */
  lemma PieceIsThere(raw: string, i: nat) returns (p: Piece)
    requires i < |raw| && EscapesAreValid(raw, i) && (IsLineByte(raw[i]) || raw[i] == '\n')
    ensures IsAllowed(p) && i + |PieceText(p)| <= |raw| && raw[i..i + |PieceText(p)|] == PieceText(p) != ""
    ensures EscapesAreValid(raw, i + |PieceText(p)|)
  {
    hide EscapesAreValid, EscapeLength, IsHexPair, IsAllowed, IsLineByte;
    if raw[i] != '=' {
      p := Literal(raw[i]);
      LiteralIsThere(raw, i);
    } else {
      EscapesUnfold(raw, i);
      if IsHexPair(raw, i + 1) {
        HexIsThere(raw, i);
        p := Hex(raw[i + 1], raw[i + 2]);
      } else {
        SoftBreakIsThere(raw, i);
        p := SoftBreak(raw[i + 1..i + EscapeLength(raw, i)]);
      }
    }
  }

  lemma {:induction false} ValidIsAllowed(raw: string, i: nat) returns (pieces: seq<Piece>)
    requires i <= |raw| && EscapesAreValid(raw, i)
    requires forall k | 0 <= k < |raw| :: IsLineByte(raw[k]) || raw[k] == '\n'
    ensures AreAllowed(pieces) && Text(pieces) == raw[i..]
    decreases |raw| - i
  {
    hide EscapesAreValid, IsAllowed, PieceText, IsLineByte;
    if i == |raw| {
      pieces := [];
    } else {
      var p := PieceIsThere(raw, i);
      var next := i + |PieceText(p)|;
      var rest := ValidIsAllowed(raw, next);
      pieces := [p] + rest;
      assert pieces[1..] == rest && raw[i..next] + raw[next..] == raw[i..];
    }
  }

  /** A body is valid exactly if it is made of literals, escapes and soft breaks. */
  lemma ValidityIsExact(raw: string)
    ensures IsValid(raw) <==> exists pieces :: AreAllowed(pieces) && Text(pieces) == raw
  {
    hide EscapesAreValid, AreAllowed, Text, IsLineByte;
    assert raw[0..] == raw;
    if IsValid(raw) {
      var pieces := ValidIsAllowed(raw, 0);
      assert AreAllowed(pieces) && Text(pieces) == raw;
    }
    if pieces :| AreAllowed(pieces) && Text(pieces) == raw {
      AllowedIsValid(raw, 0, pieces);
      BytesAreAllowed(pieces);
    }
  }

  function Front(bytes: string, rest: Option<string>): Option<string> {
    if rest.None? then None else Some(bytes + rest.value)
  }

  lemma LineBreakDecodes(raw: string, i: nat, end: string)
    requires i + |end| <= |raw| && IsEnd(end) && forall k | 0 <= k < |end| :: raw[i + k] == end[k]
    ensures Decode(raw, i) == Front("\r\n", Decode(raw, i + |end|))
  {
    assert raw[i + 0] == end[0];
    var at := i + |end| - 1;
    if end == "\r\n" {
      assert raw[i + 1] == end[1];
      assert SkipTrailing(raw, i) == i + 1;
      assert Decode(raw, i) == Decode(raw, at);
    }
    FeedDecodes(raw, at);
  }

  lemma FeedDecodes(raw: string, i: nat)
    requires i < |raw| && raw[i] == '\n'
    ensures Decode(raw, i) == Front("\r\n", Decode(raw, i + 1))
  {
    var rest := Decode(raw, i + 1);
    assert rest.Some? ==> ['\r'] + (['\n'] + rest.value) == "\r\n" + rest.value;
  }

  lemma SoftBreakDecodes(raw: string, i: nat, n: nat)
    requires i < |raw| && raw[i] == '=' && EscapeLength(raw, i) == n != 0 && !IsHexPair(raw, i + 1)
    ensures Decode(raw, i) == Front("", Decode(raw, i + n))
  {
    var rest := Decode(raw, i + n);
    assert rest.Some? ==> "" + rest.value == rest.value;
  }

  lemma HexDecodes(raw: string, i: nat, p: Piece)
    requires i + 2 < |raw| && raw[i] == '=' && p.Hex? && IsPiece(p) && raw[i + 1] == p.high && raw[i + 2] == p.low
    requires IsHexPair(raw, i + 1) && EscapeLength(raw, i) != 0
    ensures Decode(raw, i) == Front(PieceBytes(p), Decode(raw, i + 3))
  {
    DecodeHex(raw, i);
    hide Decode, EscapeLength;
  }

  lemma LiteralDecodes(raw: string, i: nat, c: char)
    requires i < |raw| && raw[i] == c && IsPiece(Literal(c))
    requires SkipTrailing(raw, i) < |raw| && raw[SkipTrailing(raw, i)] != '\n'
    ensures Decode(raw, i) == Front([c], Decode(raw, i + 1))
  {
    DecodePlain(raw, i);
    hide Decode, SkipTrailing;
  }

  lemma DecodesOne(raw: string, i: nat, p: Piece, pieces: seq<Piece>)
    requires i <= |raw| && AreWritten(pieces) && pieces != [] && pieces[0] == p && raw[i..] == Text(pieces)
    ensures i + |PieceText(p)| <= |raw| && IsPiece(p)
    ensures Decode(raw, i) == Front(PieceBytes(p), Decode(raw, i + |PieceText(p)|))
  {
    hide AreWritten, Decode, EscapeLength, IsHexPair, SkipTrailing, IsPiece, Front;
    var rest := Text(pieces[1..]);
    WrittenCons(pieces);
    PieceStarts(raw, i, p, rest);
    if p.Literal? {
      assert raw[i + 0] == p.c;
      SpaceIsKept(raw, i, pieces);
      LiteralDecodes(raw, i, p.c);
    } else if p.Hex? {
      EscapeIsRead(raw, i, p, rest);
      HexDecodes(raw, i, p);
    } else if p.SoftBreak? {
      EscapeIsRead(raw, i, p, rest);
      SoftBreakDecodes(raw, i, |PieceText(p)|);
    } else {
      EndsIs(p);
      LineBreakDecodes(raw, i, p.end);
    }
  }

  lemma EndsIs(p: Piece)
    requires IsPiece(p) && (p.SoftBreak? || p.LineBreak?)
    ensures IsEnd(p.end)
  {
  }

  lemma {:induction false} WrittenDecodes(raw: string, i: nat, pieces: seq<Piece>)
    requires i <= |raw| && raw[i..] == Text(pieces) && AreWritten(pieces)
    ensures Decode(raw, i) == Some(BytesOf(pieces))
    decreases |pieces|
  {
    hide PieceText, PieceBytes, Decode;
    if pieces == [] {
      NothingIsLeft(raw, i);
    } else {
      WrittenCons(pieces);
      PieceStarts(raw, i, pieces[0], Text(pieces[1..]));
      DecodesOne(raw, i, pieces[0], pieces);
      WrittenDecodes(raw, i + |PieceText(pieces[0])|, pieces[1..]);
    }
  }

  lemma NothingIsLeft(raw: string, i: nat)
    requires i <= |raw| && raw[i..] == ""
    ensures Decode(raw, i) == Some("")
  {
    assert |raw[i..]| == |raw| - i;
  }

  lemma WrittenAreAllowed(pieces: seq<Piece>)
    requires AreWritten(pieces)
    ensures AreAllowed(pieces)
  {
    hide IsPiece;
  }

  /** Every body so written is accepted, and its exact length is foreseen. */
  lemma WrittenBodyIsAccepted(pieces: seq<Piece>)
    requires AreWritten(pieces)
    ensures IsValid(Text(pieces)) && Decode(Text(pieces), 0) == Some(BytesOf(pieces))
    ensures DecodedLength(Text(pieces), 0) == Some(|BytesOf(pieces)|)
  {
    var raw := Text(pieces);
    assert raw[0..] == raw;
    WrittenAreAllowed(pieces);
    AllowedIsValid(raw, 0, pieces);
    BytesAreAllowed(pieces);
    WrittenDecodes(raw, 0, pieces);
    LengthIsExact(raw, 0);
    hide AreWritten, AreAllowed, EscapesAreValid, Decode, DecodedLength;
  }
}
