// Character classes, results and the shared quoting automaton of the mail
// header scanners. Text is a sequence of Unicode scalar values.
module MailText {

  datatype Option<+T> = None | Some(value: T)

  type Byte = n: int | 0 <= n < 256

  predicate IsAscii(c: char) {
    c as int < 0x80
  }

  predicate IsGraphic(c: char) {
    '!' <= c <= '~'
  }

  predicate IsWsp(c: char) {
    c == ' ' || c == '\t'
  }

  predicate IsControl(c: char) {
    c as int < 0x20 || 0x7F <= c as int < 0xA0
  }

  predicate IsHexDigit(c: char) {
    '0' <= c <= '9' || 'A' <= c <= 'F' || 'a' <= c <= 'f'
  }

  function HexValue(c: char): (v: int)
    requires IsHexDigit(c)
    ensures 0 <= v < 16
  {
    if c <= '9' then c as int - '0' as int
    else if c <= 'F' then c as int - 'A' as int + 10
    else c as int - 'a' as int + 10
  }

  function Min(a: nat, b: nat): nat {
    if a < b then a else b
  }

  function One(b: bool): nat {
    if b then 1 else 0
  }

  predicate IsAlphanumeric(c: char) {
    '0' <= c <= '9' || 'A' <= c <= 'Z' || 'a' <= c <= 'z'
  }

  /** atext of section 3.2.3 of RFC 5322, by code point ranges. */
  predicate IsAtext(c: char) {
    || c == '!' || '#' <= c <= '\'' || c == '*' || c == '+' || c == '-' || '/' <= c <= '9'
    || c == '=' || c == '?' || 'A' <= c <= 'Z' || '^' <= c <= '~'
  }

  /** What a comment or a phrase may hold: HTAB, or anything that is no control. */
  predicate IsCommentChar(c: char) {
    c == '\t' || !IsControl(c)
  }

  predicate IsQuotedPairChar(c: char) {
    IsWsp(c) || IsGraphic(c)
  }

  /** qtext and WSP: what a quoted-string may hold unescaped. */
  predicate IsQuotedText(c: char) {
    IsQuotedPairChar(c) && c != '"' && c != '\\'
  }

  /** dtext: what a domain literal may hold unescaped. */
  predicate IsLiteralText(c: char) {
    '!' <= c <= 'Z' || '^' <= c <= '~'
  }

  predicate AllGraphic(s: string) {
    forall k | 0 <= k < |s| :: IsGraphic(s[k])
  }

  predicate AllAscii(s: string) {
    forall k | 0 <= k < |s| :: IsAscii(s[k])
  }

  /** Free of every control character but HTAB. */
  predicate IsHeaderText(s: string) {
    forall k | 0 <= k < |s| :: s[k] == '\t' || !IsControl(s[k])
  }

  /** No delimiter of the identifier syntax is atext. */
  lemma AtextIsOrdinary(c: char)
    requires IsAtext(c)
    ensures c != '"' && c != '\\' && c != '[' && c != ']' && c != '(' && c != ')' && !IsWsp(c)
    ensures c != '.' && c != '@' && c != '<' && c != '>'
    ensures IsGraphic(c)
  {
  }

  function CharBytes(c: char): nat {
    if c as int < 0x80 then 1 else if c as int < 0x800 then 2 else if c as int < 0x10000 then 3 else 4
  }

  /** The length of a text in UTF-8. */
  function ByteLength(s: string): nat {
    if s == "" then 0 else ByteLength(s[..|s| - 1]) + CharBytes(s[|s| - 1])
  }

  lemma {:induction false} AsciiByteLength(s: string)
    requires AllAscii(s)
    ensures ByteLength(s) == |s|
    decreases |s|
  {
    if s != "" {
      AsciiByteLength(s[..|s| - 1]);
    }
  }

  lemma {:induction false} ByteLengthConcat(a: string, b: string)
    ensures ByteLength(a + b) == ByteLength(a) + ByteLength(b)
    decreases |b|
  {
    if b == "" {
      assert a + b == a;
    } else {
      assert (a + b)[..|a + b| - 1] == a + b[..|b| - 1];
      ByteLengthConcat(a, b[..|b| - 1]);
    }
  }

  function Concatenated(parts: seq<string>): string {
    if parts == [] then "" else parts[0] + Concatenated(parts[1..])
  }

  /** The first place a character stands at or after a position. */
  function Find(v: string, i: nat, c: char): (r: Option<nat>)
    requires i <= |v|
    ensures r.Some? ==> i <= r.value < |v| && v[r.value] == c
    decreases |v| - i
  {
    if i == |v| then None else if v[i] == c then Some(i) else Find(v, i + 1, c)
  }

  lemma SliceOfSlice(s: string, a: nat, b: nat, i: nat, j: nat)
    requires i <= j <= b - a && b <= |s|
    ensures s[a..b][i..j] == s[a + i..a + j]
    ensures j < b - a ==> s[a..b][j] == s[a + j]
  {
    var t := s[a..b];
    assert forall k | 0 <= k < |t| :: t[k] == s[a + k];
    assert t[i..j] == s[a + i..a + j];
  }

  /** Where a piece stands, and what follows it. */
  lemma PieceAt(text: string, at: nat, piece: string, rest: string)
    requires at <= |text| && text[at..] == piece + rest
    ensures at + |piece| <= |text|
    ensures text[at..at + |piece|] == piece && text[at + |piece|..] == rest
  {
    var tail := text[at..];
    assert tail[..|piece|] == piece && tail[|piece|..] == rest;
    assert text[at..at + |piece|] == tail[..|piece|];
    assert text[at + |piece|..] == tail[|piece|..];
  }

  // ---- The quoting automaton

  /** Whether a position is inside a quoted-string, a domain literal, after a
      backslash, or how many comments deep. */
  datatype Lex = Lex(quoted: bool, literal: bool, escaped: bool, depth: nat)

  const PLAIN := Lex(false, false, false, 0)

  function LexStep(s: Lex, c: char): Lex {
    if s.depth != 0 then
      if s.escaped then s.(escaped := false)
      else if c == '\\' then s.(escaped := true)
      else if c == '(' then s.(depth := s.depth + 1)
      else if c == ')' then s.(depth := s.depth - 1)
      else s
    else if s.escaped then s.(escaped := false)
    else if (s.quoted || s.literal) && c == '\\' then s.(escaped := true)
    else if !s.literal && c == '"' then s.(quoted := !s.quoted)
    else if !s.quoted && c == '[' then s.(literal := true)
    else if s.literal && c == ']' then s.(literal := false)
    else if !s.quoted && !s.literal && c == '(' then s.(depth := 1)
    else s
  }

  /** The state after reading a text. */
  function LexRun(s: Lex, text: string): Lex {
    if text == "" then s else LexStep(LexRun(s, text[..|text| - 1]), text[|text| - 1])
  }

  lemma {:induction false} LexRunConcat(s: Lex, a: string, b: string)
    ensures LexRun(s, a + b) == LexRun(LexRun(s, a), b)
    decreases |b|
  {
    if b == "" {
      assert a + b == a;
    } else {
      var init := b[..|b| - 1];
      LexRunConcat(s, a, init);
      assert (a + b)[..|a + b| - 1] == a + init;
    }
  }

  /** A text that leaves the automaton plain and never shows it a bare c. */
  ghost predicate Hides(text: string, c: char) {
    && LexRun(PLAIN, text) == PLAIN
    && forall k | 0 <= k < |text| && LexRun(PLAIN, text[..k]) == PLAIN :: text[k] != c
  }

  /** Neither the separator scan nor the end scan can stop inside such a text. */
  ghost predicate Inert(text: string) {
    Hides(text, '@') && Hides(text, '>')
  }

  lemma HidesConcat(a: string, b: string, c: char)
    requires Hides(a, c) && Hides(b, c)
    ensures Hides(a + b, c)
  {
    LexRunConcat(PLAIN, a, b);
    forall k | 0 <= k < |a + b| && LexRun(PLAIN, (a + b)[..k]) == PLAIN
      ensures (a + b)[k] != c
    {
      if k < |a| {
        assert (a + b)[..k] == a[..k];
      } else {
        assert (a + b)[..k] == a + b[..k - |a|];
        LexRunConcat(PLAIN, a, b[..k - |a|]);
      }
    }
  }

  lemma InertConcat(a: string, b: string)
    requires Inert(a) && Inert(b)
    ensures Inert(a + b)
  {
    HidesConcat(a, b, '@');
    HidesConcat(a, b, '>');
  }

  lemma CharHides(x: char, c: char)
    requires x !in "\"[(" && x != c
    ensures Hides([x], c)
  {
    assert [x][..0] == "";
    assert LexRun(PLAIN, [x]) == LexStep(LexRun(PLAIN, [x][..0]), x);
  }
}
