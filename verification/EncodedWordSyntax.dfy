// The form of an encoded word (section 2 of RFC 2047), which the phrases of the
// threading headers and the Subject header share.
module EncodedWordSyntax {
  import opened MailText

  /** Graphic and none of the specials ( ) < > @ , ; : " / [ ] ? = and backslash. */
  predicate IsTokenChar(c: char) {
    && IsGraphic(c) && c != '"' && c != '(' && c != ')' && c != ',' && c != '/'
    && !(':' <= c <= '@') && !('[' <= c <= ']')
  }

  predicate IsEncodedWordToken(s: string, dots: bool) {
    s != "" && forall k | 0 <= k < |s| :: IsTokenChar(s[k]) && (dots || s[k] != '.')
  }

  /** Charset, encoding and text of an encoded word, each free of the question
      marks between them. */
  predicate IsEncodedWordOf(word: string, charset: string, encoding: string, text: string) {
    && IsEncodedWordToken(charset, true) && IsEncodedWordToken(encoding, false)
    && text != "" && AllGraphic(text) && '?' !in text
    && word == "=?" + charset + "?" + encoding + "?" + text + "?="
  }

  ghost predicate IsEncodedWord(word: string) {
    |word| <= 75 && exists charset, encoding, text :: IsEncodedWordOf(word, charset, encoding, text)
  }

  lemma {:induction false} FindIs(v: string, i: nat, c: char, at: nat)
    requires i <= at < |v| && v[at] == c && forall k | i <= k < at :: v[k] != c
    ensures Find(v, i, c) == Some(at)
    decreases at - i
  {
    if i < at {
      FindIs(v, i + 1, c, at);
    }
  }

  lemma {:induction false} FindIsFirst(v: string, i: nat, c: char)
    requires i <= |v| && Find(v, i, c).Some?
    ensures forall k | i <= k < Find(v, i, c).value :: v[k] != c
    decreases |v| - i
  {
    if v[i] != c {
      FindIsFirst(v, i + 1, c);
    }
  }

  lemma TokensHoldNoMark(s: string, dots: bool)
    requires IsEncodedWordToken(s, dots)
    ensures forall k | 0 <= k < |s| :: s[k] != '?'
  {
  }

  lemma PieceIs(before: string, piece: string, after: string)
    ensures var word := before + piece + after;
      && word[|before|..|before| + |piece|] == piece
      && (after != "" ==> word[|before| + |piece|] == after[0])
  {
  }

  lemma FindPiece(v: string, i: nat, piece: string)
    requires i + |piece| < |v| && v[i..i + |piece|] == piece && v[i + |piece|] == '?'
    requires forall k | 0 <= k < |piece| :: piece[k] != '?'
    ensures Find(v, i, '?') == Some(i + |piece|)
  {
    forall k | i <= k < i + |piece|
      ensures v[k] != '?'
    {
      assert v[k] == v[i..i + |piece|][k - i];
    }
    FindIs(v, i, '?', i + |piece|);
    hide Find;
  }

  /** Where one part of an encoded word lies in the value. */
  lemma PartIsAt(v: string, i: nat, end: nat, before: string, piece: string, after: string)
    requires i <= end <= |v| && v[i..end] == before + piece + after && after != ""
    ensures var from := i + |before|;
      && from + |piece| < end && v[from..from + |piece|] == piece && v[from + |piece|] == after[0]
  {
    PieceIs(before, piece, after);
    SliceOfSlice(v, i, end, |before|, |before| + |piece|);
  }

  lemma WordGroups(charset: string, encoding: string, text: string)
    ensures var word := "=?" + charset + "?" + encoding + "?" + text + "?=";
      && word == "=?" + charset + ("?" + encoding + "?" + text + "?=")
      && word == ("=?" + charset + "?") + encoding + ("?" + text + "?=")
      && word == ("=?" + charset + "?" + encoding + "?") + text + "?="
  {
  }

  lemma PartsAreAt(v: string, i: nat, end: nat, charset: string, encoding: string, text: string)
    requires i <= end <= |v| && v[i..end] == "=?" + charset + "?" + encoding + "?" + text + "?="
    ensures var a := i + 2 + |charset|;
      var b := a + 1 + |encoding|;
      var c := b + 1 + |text|;
      && end == c + 2 && v[a] == '?' && v[b] == '?' && v[c] == '?' && v[c + 1] == '='
      && v[i + 2..a] == charset && v[a + 1..b] == encoding && v[b + 1..c] == text
  {
    WordGroups(charset, encoding, text);
    var before := "=?" + charset + "?" + encoding + "?";
    PartIsAt(v, i, end, "=?", charset, "?" + encoding + "?" + text + "?=");
    PartIsAt(v, i, end, "=?" + charset + "?", encoding, "?" + text + "?=");
    PartIsAt(v, i, end, before, text, "?=");
    SliceOfSlice(v, i, end, |before| + |text|, |before| + |text| + 1);
  }

  lemma MarkEndsToken(v: string, i: nat, end: nat, dots: bool)
    requires i <= end < |v| && IsEncodedWordToken(v[i..end], dots) && v[end] == '?'
    ensures Find(v, i, '?') == Some(end)
  {
    hide *;
    TokensHoldNoMark(v[i..end], dots);
    FindPiece(v, i, v[i..end]);
  }

  lemma PartsSay(word: string, charset: string, encoding: string, text: string)
    requires IsEncodedWordOf(word, charset, encoding, text)
    ensures IsEncodedWordToken(charset, true) && IsEncodedWordToken(encoding, false)
    ensures text != "" && word == "=?" + charset + "?" + encoding + "?" + text + "?="
    ensures |text| < |word| && word[0..|word|] == word
  {
    hide IsEncodedWordToken, AllGraphic;
  }

  lemma PartsLie(word: string, charset: string, encoding: string, text: string)
    requires IsEncodedWordOf(word, charset, encoding, text)
    ensures var a := 2 + |charset|;
      var b := a + 1 + |encoding|;
      && b + 3 <= |word| && word[a] == '?' && word[b] == '?'
      && word[2..a] == charset && word[a + 1..b] == encoding && word[b + 1..|word| - 2] == text
  {
    hide *;
    PartsSay(word, charset, encoding, text);
    PartsAreAt(word, 0, |word|, charset, encoding, text);
  }

  lemma PartsBegin(word: string, charset: string, encoding: string, text: string)
    requires IsEncodedWordOf(word, charset, encoding, text)
    ensures var a := 2 + |charset|;
      var b := a + 1 + |encoding|;
      && b + 3 <= |word| && Find(word, 2, '?') == Some(a) && Find(word, a + 1, '?') == Some(b)
      && word[2..a] == charset && word[a + 1..b] == encoding && word[b + 1..|word| - 2] == text
  {
    hide *;
    PartsSay(word, charset, encoding, text);
    PartsLie(word, charset, encoding, text);
    var a := 2 + |charset|;
    MarkEndsToken(word, 2, a, true);
    MarkEndsToken(word, a + 1, a + 1 + |encoding|, false);
  }

  /** A word has one charset, one encoding and one text. */
  lemma PartsAreUnique(word: string, charset: string, encoding: string, text: string,
                       charset': string, encoding': string, text': string)
    requires IsEncodedWordOf(word, charset, encoding, text) && IsEncodedWordOf(word, charset', encoding', text')
    ensures charset == charset' && encoding == encoding' && text == text'
  {
    hide *;
    PartsBegin(word, charset, encoding, text);
    PartsBegin(word, charset', encoding', text');
  }
}
