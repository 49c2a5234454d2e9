// Reading a Subject header back (crates/notm-mail/src/mime.rs): what a reader of
// encoded words shows of what the writer made, and the subjects it changes.
module SubjectReading {
  import opened MailText
  import opened Base64
  import opened Utf8
  import opened EncodedWordSyntax
  import opened ThreadingHeader
  import opened EncodedWords

  // ---- Readers

  /** What decodes single words: it knows UTF-8 in base64, whatever else it knows,
      and shows less than what it reads. */
  ghost predicate IsReader(read: string -> Option<string>) {
    && (forall word | read(word).Some? :: |read(word).value| < |word|)
    && (forall chunk | chunk != "" && ByteLength(chunk) <= ENCODED_WORD_INPUT_BYTES :: read(Word(chunk)) == Some(chunk))
  }

  /** How many blanks a text starts with, or how many characters that are none. */
  function RunLength(v: string, blank: bool): (n: nat)
    ensures n <= |v| && forall k | 0 <= k < n :: IsWsp(v[k]) == blank
    ensures n < |v| ==> IsWsp(v[n]) != blank
  {
    if v != "" && IsWsp(v[0]) == blank then 1 + RunLength(v[1..], blank) else 0
  }

  /** What is shown: words and blanks as they are, but words that can be read
      decoded and, by section 6.2 of RFC 2047, no blanks between two of them. */
  function Shown(v: string, afterWord: bool, read: string -> Option<string>): string
    decreases |v|
  {
    var n := RunLength(v, true);
    var rest := v[n..];
    if rest == "" then v
    else
      var m := RunLength(rest, false);
      var text := read(rest[..m]);
      if text.None? then v[..n] + rest[..m] + Shown(rest[m..], false, read)
      else (if afterWord then "" else v[..n]) + text.value + Shown(rest[m..], true, read)
  }

  /** A word of a text, between blanks or the ends. */
  predicate IsWordAt(v: string, i: int, j: int) {
    && 0 <= i < j <= |v| && (forall k | i <= k < j :: !IsWsp(v[k]))
    && (i == 0 || IsWsp(v[i - 1])) && (j == |v| || IsWsp(v[j]))
  }

  ghost predicate HasReadWord(v: string, read: string -> Option<string>) {
    exists i, j :: IsWordAt(v, i, j) && read(v[i..j]).Some?
  }

  // ---- Texts as blanks, a word and a tail

  predicate AreBlanks(s: string) {
    forall k | 0 <= k < |s| :: IsWsp(s[k])
  }

  predicate IsSolid(word: string) {
    word != "" && forall k | 0 <= k < |word| :: !IsWsp(word[k])
  }

  predicate IsApart(tail: string) {
    tail == "" || IsWsp(tail[0])
  }

  lemma PlacesAre(blanks: string, word: string, tail: string)
    requires AreBlanks(blanks) && IsSolid(word) && IsApart(tail)
    ensures var (v, at) := (blanks + word + tail, |blanks| + |word|);
      && (forall k | 0 <= k < |blanks| :: IsWsp(v[k])) && (forall k | |blanks| <= k < at :: !IsWsp(v[k]))
      && (at < |v| ==> IsWsp(v[at])) && v[|blanks|..at] == word && v[at..] == tail
  {
    hide IsWsp;
  }

  lemma TailSlice(v: string, at: nat, i: nat, j: nat)
    requires at <= i <= j <= |v|
    ensures v[at..][i - at..j - at] == v[i..j]
  {
  }

  /** A word of the whole is the first one or a word of the tail. */
  lemma WordIsFirstOrLater(blanks: string, word: string, tail: string, i: nat, j: nat)
    requires AreBlanks(blanks) && IsSolid(word) && IsApart(tail) && IsWordAt(blanks + word + tail, i, j)
    ensures var (v, at) := (blanks + word + tail, |blanks| + |word|);
      || (i == |blanks| && j == at && v[i..j] == word)
      || (at <= i && IsWordAt(tail, i - at, j - at) && v[i..j] == tail[i - at..j - at])
  {
    PlacesAre(blanks, word, tail);
    hide IsWsp, AreBlanks, IsSolid, IsApart;
    var v, at := blanks + word + tail, |blanks| + |word|;
    assert !IsWsp(v[i]);
    assert i >= |blanks| && i != at;
    assert i < at ==> i == |blanks| && j == at;
    if i > at {
      TailSlice(v, at, i, j);
      LaterIsTail(v, at, i, j);
    }
  }

  lemma LaterIsTail(v: string, at: nat, i: nat, j: nat)
    requires at <= |v| && (at < |v| ==> IsWsp(v[at])) && at <= i
    ensures IsWordAt(v, i, j) && at < i ==> IsWordAt(v[at..], i - at, j - at)
    ensures at <= j && IsWordAt(v[at..], i - at, j - at) ==> IsWordAt(v, i, j)
  {
    hide IsWsp;
    assert forall k | at <= k < |v| :: v[at..][k - at] == v[k];
    assert forall k | 0 <= k < |v| - at :: v[at..][k] == v[at + k];
  }

  lemma FirstIsRead(blanks: string, word: string, tail: string, read: string -> Option<string>)
    requires AreBlanks(blanks) && IsSolid(word) && IsApart(tail) && read(word).Some?
    ensures HasReadWord(blanks + word + tail, read)
  {
    PlacesAre(blanks, word, tail);
    var v, at := blanks + word + tail, |blanks| + |word|;
    assert IsSolid(word);
    assert |blanks| > 0 ==> IsWsp(v[|blanks| - 1]);
    hide AreBlanks, IsSolid, IsApart, IsWsp;
    assert IsWordAt(v, |blanks|, at);
  }

  lemma ReadWordIn(v: string, read: string -> Option<string>) returns (i: nat, j: nat)
    requires HasReadWord(v, read)
    ensures i <= j <= |v| && IsWordAt(v, i, j) && read(v[i..j]).Some?
  {
    hide IsWsp;
    i, j :| IsWordAt(v, i, j) && read(v[i..j]).Some?;
  }

  lemma WordIsRead(v: string, read: string -> Option<string>, i: nat, j: nat)
    requires i <= j <= |v| && IsWordAt(v, i, j) && read(v[i..j]).Some?
    ensures HasReadWord(v, read)
  {
    hide IsWsp;
  }

  lemma LaterIsRead(blanks: string, word: string, tail: string, read: string -> Option<string>)
    requires AreBlanks(blanks) && IsSolid(word) && IsApart(tail) && HasReadWord(tail, read)
    ensures HasReadWord(blanks + word + tail, read)
  {
    hide *;
    var v, at := blanks + word + tail, |blanks| + |word|;
    PlacesAre(blanks, word, tail);
    var i, j := ReadWordIn(tail, read);
    LaterIsTail(v, at, at + i, at + j);
    TailSlice(v, at, at + i, at + j);
    WordIsRead(v, read, at + i, at + j);
  }

  lemma WordsUnfold(blanks: string, word: string, tail: string, read: string -> Option<string>)
    requires AreBlanks(blanks) && IsSolid(word) && IsApart(tail)
    ensures HasReadWord(blanks + word + tail, read) <==> read(word).Some? || HasReadWord(tail, read)
  {
    if read(word).Some? {
      hide *;
      FirstIsRead(blanks, word, tail, read);
    } else if HasReadWord(tail, read) {
      hide *;
      LaterIsRead(blanks, word, tail, read);
    } else if HasReadWord(blanks + word + tail, read) {
      hide AreBlanks, IsSolid, IsApart, IsWsp;
      var v := blanks + word + tail;
      var i, j :| IsWordAt(v, i, j) && read(v[i..j]).Some?;
      WordIsFirstOrLater(blanks, word, tail, i, j);
    }
  }

  lemma BlanksHoldNoWord(v: string, read: string -> Option<string>)
    requires AreBlanks(v)
    ensures !HasReadWord(v, read)
  {
    hide AreBlanks;
    if HasReadWord(v, read) {
      var i, j :| IsWordAt(v, i, j) && read(v[i..j]).Some?;
      WordsAreNoBlanks(v, i, j);
    }
  }

  lemma WordsAreNoBlanks(v: string, i: nat, j: nat)
    requires IsWordAt(v, i, j)
    ensures !AreBlanks(v)
  {
    assert !IsWsp(v[i]);
  }

  lemma {:induction false} RunIs(v: string, n: nat, blank: bool)
    requires n <= |v| && (forall k | 0 <= k < n :: IsWsp(v[k]) == blank) && (n < |v| ==> IsWsp(v[n]) != blank)
    ensures RunLength(v, blank) == n
  {
    hide IsWsp;
    if n > 0 {
      RunIs(v[1..], n - 1, blank);
    }
  }

  lemma RunsAre(blanks: string, word: string, tail: string)
    requires AreBlanks(blanks) && IsSolid(word) && IsApart(tail)
    ensures var v := blanks + word + tail;
      RunLength(v, true) == |blanks| && v[..|blanks|] == blanks && v[|blanks|..] == word + tail
    ensures RunLength(word + tail, false) == |word| && (word + tail)[..|word|] == word
    ensures (word + tail)[|word|..] == tail
  {
    hide IsWsp;
    var rest := word + tail;
    var v := blanks + word + tail;
    assert v == blanks + rest;
    assert v[|blanks|] == word[0];
    RunIs(v, |blanks|, true);
    assert forall k | 0 <= k < |word| :: rest[k] == word[k];
    RunIs(rest, |word|, false);
  }

  /** A word between blanks is shown, decoded if it can be, and then the tail. */
  lemma WordShows(blanks: string, word: string, tail: string, afterWord: bool, read: string -> Option<string>)
    requires AreBlanks(blanks) && IsSolid(word) && IsApart(tail)
    ensures Shown(blanks + word + tail, afterWord, read) ==
      if read(word).None? then blanks + word + Shown(tail, false, read)
      else (if afterWord then "" else blanks) + read(word).value + Shown(tail, true, read)
  {
    RunsAre(blanks, word, tail);
    hide IsWsp, RunLength;
  }

  lemma BlanksShow(v: string, afterWord: bool, read: string -> Option<string>)
    requires AreBlanks(v)
    ensures Shown(v, afterWord, read) == v
  {
    RunIs(v, |v|, true);
  }

  lemma SplitAtWord(v: string) returns (blanks: string, word: string, tail: string)
    ensures v == blanks + word + tail && AreBlanks(blanks) && IsApart(tail)
    ensures word == "" ==> tail == ""
    ensures word != "" ==> IsSolid(word) && |tail| < |v|
  {
    hide IsWsp;
    var n := RunLength(v, true);
    var rest := v[n..];
    var m := RunLength(rest, false);
    blanks, word, tail := v[..n], rest[..m], rest[m..];
    assert rest != "" ==> !IsWsp(rest[0]);
  }

  /** Reading never lengthens a text, and changes it exactly if it reads a word. */
  lemma {:induction false} ShownIsAsWritten(v: string, afterWord: bool, read: string -> Option<string>)
    requires IsReader(read)
    ensures |Shown(v, afterWord, read)| <= |v|
    ensures HasReadWord(v, read) ==> |Shown(v, afterWord, read)| < |v|
    ensures !HasReadWord(v, read) ==> Shown(v, afterWord, read) == v
    decreases |v|
  {
    hide *;
    var blanks, word, tail := SplitAtWord(v);
    if word == "" {
      assert v == blanks;
      BlanksHoldNoWord(v, read);
      BlanksShow(v, afterWord, read);
    } else {
      WordShows(blanks, word, tail, afterWord, read);
      WordsUnfold(blanks, word, tail, read);
      ShownIsAsWritten(tail, read(word).Some?, read);
      ReadersShorten(read, word);
    }
  }

  lemma ReadersShorten(read: string -> Option<string>, word: string)
    requires IsReader(read)
    ensures read(word).Some? ==> |read(word).value| < |word|
  {
  }

  lemma ReadersReadChunks(read: string -> Option<string>, chunk: string)
    requires IsReader(read) && chunk != "" && ByteLength(chunk) <= ENCODED_WORD_INPUT_BYTES
    ensures read(Word(chunk)) == Some(chunk)
  {
  }

  // ---- The words of a subject

  predicate AreReadable(chunks: seq<string>) {
    forall k | 0 <= k < |chunks| :: chunks[k] != "" && ByteLength(chunks[k]) <= ENCODED_WORD_INPUT_BYTES
  }

  /** The encoded words of a text, one after another, read as the text. */
  lemma {:induction false} SpacedWordsShow(chunks: seq<string>, read: string -> Option<string>)
    requires IsReader(read) && AreReadable(chunks)
    ensures Shown(Spaced(Words(chunks)), true, read) == Concatenated(chunks)
    ensures chunks != [] ==> Shown(Spaced(Words(chunks))[1..], false, read) == Concatenated(chunks)
    decreases |chunks|
  {
    if chunks == [] {
      assert Spaced(Words(chunks)) == "";
    } else {
      hide Word, Shown, IsReader, ByteLength;
      var word, tail := Word(chunks[0]), Spaced(Words(chunks[1..]));
      assert Words(chunks)[0] == word && Words(chunks)[1..] == Words(chunks[1..]);
      assert Spaced(Words(chunks)) == " " + word + tail;
      SpacedWordsShow(chunks[1..], read);
      WordIsSolid(chunks[0]);
      ReadersReadChunks(read, chunks[0]);
      OneWordShows(word, tail, read);
    }
  }

  lemma OneWordShows(word: string, tail: string, read: string -> Option<string>)
    requires IsSolid(word) && IsApart(tail) && read(word).Some?
    ensures Shown(" " + word + tail, true, read) == read(word).value + Shown(tail, true, read)
    ensures (" " + word + tail)[1..] == word + tail
    ensures Shown(word + tail, false, read) == read(word).value + Shown(tail, true, read)
    ensures HasReadWord(word + tail, read)
  {
    assert AreBlanks(" ") && AreBlanks("");
    hide Shown, HasReadWord, IsSolid, IsApart, AreBlanks;
    WordShows(" ", word, tail, true, read);
    WordShows("", word, tail, false, read);
    WordsUnfold("", word, tail, read);
    NothingBefore(read(word).value, Shown(tail, true, read));
    NothingBefore(word, tail);
  }

  lemma NothingBefore(a: string, b: string)
    ensures "" + a + b == a + b && (" " + a + b)[1..] == a + b
  {
  }

  lemma WordIsSolid(chunk: string)
    ensures IsSolid(Word(chunk)) && IsApart("")
  {
    EncodedWordLength(chunk);
    hide Word;
  }

  lemma ChunksOfSubject(subject: string)
    ensures var chunks := Chunks(subject, "", ENCODED_WORD_INPUT_BYTES);
      Concatenated(chunks) == subject && chunks != [] && (subject != "" ==> AreReadable(chunks))
  {
    hide Chunks, ByteLength, CharBytes, Concatenated;
    var chunks := Chunks(subject, "", ENCODED_WORD_INPUT_BYTES);
    ByteLengthIsNone("");
    ChunksCover(subject, "", ENCODED_WORD_INPUT_BYTES);
    assert "" + subject == subject;
    forall k | 0 <= k < |chunks| && subject != ""
      ensures chunks[k] != "" && ByteLength(chunks[k]) <= ENCODED_WORD_INPUT_BYTES
    {
      if k > 0 {
        assert WasFull(chunks, k, ENCODED_WORD_INPUT_BYTES);
      }
    }
  }

  lemma WritableIsText(token: string)
    ensures IsWritable(token) ==> IsHeaderText(token)
  {
  }

  /** The unfolded field is one space and the tokens, one space between them. */
  lemma SubjectUnfolds(subject: string)
    requires IsHeaderText(subject)
    ensures Unfolded(Folded(SubjectTokens(subject), ByteLength("Subject") + 1)) == Some(Spaced(SubjectTokens(subject)))
    ensures SubjectTokens(subject) != [] && Spaced(SubjectTokens(subject)) == " " + Spaced(SubjectTokens(subject))[1..]
    ensures SubjectTokens(subject) == [subject] ==> Spaced(SubjectTokens(subject))[1..] == subject
  {
    hide *;
    TokensAreThere(subject);
    TokensAreWritable(subject);
    var tokens := SubjectTokens(subject);
    forall k | 0 <= k < |tokens|
      ensures IsHeaderText(tokens[k])
    {
      WritableIsText(tokens[k]);
    }
    UnfoldingUndoesFolding(tokens, ByteLength("Subject") + 1);
    SpacedUnfolds(tokens);
  }

  lemma SpacedUnfolds(tokens: seq<string>)
    requires tokens != []
    ensures Spaced(tokens) == " " + Spaced(tokens)[1..]
    ensures |tokens| == 1 ==> Spaced(tokens)[1..] == tokens[0]
  {
    var after := tokens[0] + Spaced(tokens[1..]);
    assert Spaced(tokens) == " " + after && (" " + after)[1..] == after;
    if |tokens| == 1 {
      assert after == tokens[0];
    }
  }

  lemma TokensAreThere(subject: string)
    ensures SubjectTokens(subject) != []
  {
    ChunksOfSubject(subject);
    hide Chunks, AreReadable, Concatenated, NeedsWords, Word;
  }

  lemma EmptyNeedsNone()
    ensures !NeedsWords("")
  {
    AsciiByteLength("Subject: ");
  }

  // ---- The round trip

  /** The header's body, unfolded, is a space and something read as the subject. */
  predicate ReadsBack(subject: string, read: string -> Option<string>) {
    var unfolded := Unfolded(Folded(SubjectTokens(subject), ByteLength("Subject") + 1));
    && unfolded.Some? && unfolded.value != "" && unfolded.value[0] == ' '
    && Shown(unfolded.value[1..], false, read) == subject
  }

  /** For every reader and every subject that can be written: folded, unfolded and
      read, it is the subject again if and only if it was encoded, or it holds no
      word that this reader decodes. */
  lemma SubjectReadsBack(subject: string, read: string -> Option<string>)
    requires IsHeaderText(subject) && IsReader(read)
    ensures ReadsBack(subject, read) <==> NeedsWords(subject) || !HasReadWord(subject, read)
  {
    hide *;
    SubjectUnfolds(subject);
    SubjectTokensAre(subject);
    EmptyNeedsNone();
    ChunksOfSubject(subject);
    ReadsBackUnfolds(subject, read, Spaced(SubjectTokens(subject))[1..]);
    if NeedsWords(subject) {
      SpacedWordsShow(Chunks(subject, "", ENCODED_WORD_INPUT_BYTES), read);
    } else {
      ShownIsAsWritten(subject, false, read);
    }
  }

  lemma ReadsBackUnfolds(subject: string, read: string -> Option<string>, rest: string)
    requires Unfolded(Folded(SubjectTokens(subject), ByteLength("Subject") + 1)) == Some(" " + rest)
    ensures ReadsBack(subject, read) <==> Shown(rest, false, read) == subject
  {
    hide Unfolded, Folded, SubjectTokens, Shown, ByteLength;
    assert (" " + rest)[1..] == rest;
  }

  /** A reader that leaves alone whatever is no encoded word. */
  ghost predicate ReadsOnlyWords(read: string -> Option<string>) {
    IsReader(read) && forall word | read(word).Some? :: IsEncodedWord(word)
  }

  ghost predicate HasEncodedWord(v: string) {
    exists i, j :: IsWordAt(v, i, j) && IsEncodedWord(v[i..j])
  }

  lemma ReadWordsAreEncoded(v: string, read: string -> Option<string>)
    requires ReadsOnlyWords(read) && HasReadWord(v, read)
    ensures HasEncodedWord(v)
  {
    hide IsWordAt, IsEncodedWord, IsReader;
    var i, j := ReadWordIn(v, read);
  }

  /** The failing inputs: a word that a reader decodes, written as a short subject,
      is left as it is and read as what it encodes. */
  lemma ReadWordIsNoSubject(word: string, read: string -> Option<string>)
    requires IsReader(read) && IsEncodedWord(word) && read(word).Some? && |word| <= 69
    ensures IsHeaderText(word) && !NeedsWords(word) && HasReadWord(word, read)
    ensures SubjectTokens(word) == [word] && Shown(word, false, read) == read(word).value != word
  {
    hide *;
    WordIsPlain(word);
    SubjectTokensAre(word);
    ReadersShorten(read, word);
    OneWordShows(word, "", read);
    NothingShows(word, read);
    NothingShows(read(word).value, read);
  }

  lemma NothingShows(text: string, read: string -> Option<string>)
    ensures text + Shown("", true, read) == text && text + "" == text
  {
  }

  lemma WordIsPlain(word: string)
    requires IsEncodedWord(word) && |word| <= 69
    ensures IsHeaderText(word) && !NeedsWords(word) && IsSolid(word) && IsApart("")
  {
    var charset, encoding, text :| IsEncodedWordOf(word, charset, encoding, text);
    TokenIsGraphic(charset, true);
    TokenIsGraphic(encoding, false);
    PartsAreGraphic(word, charset, encoding, text);
    AsciiByteLength("Subject: ");
    AsciiByteLength(word);
  }

  lemma TokenIsGraphic(s: string, dots: bool)
    requires IsEncodedWordToken(s, dots)
    ensures AllGraphic(s)
  {
  }

  lemma PartsAreGraphic(word: string, charset: string, encoding: string, text: string)
    requires AllGraphic(charset) && AllGraphic(encoding) && AllGraphic(text)
    requires word == "=?" + charset + "?" + encoding + "?" + text + "?="
    ensures word != "" && AllGraphic(word)
  {
    assert AllGraphic("=?") && AllGraphic("?") && AllGraphic("?=");
    hide IsGraphic;
  }

  // ---- A reader of UTF-8 words, in either encoding and any spelling

  function LowerChar(c: char): char {
    if 'A' <= c <= 'Z' then (c as int + 32) as char else c
  }

  function Lower(s: string): string {
    if s == "" then "" else [LowerChar(s[0])] + Lower(s[1..])
  }

  /** The Q encoding of section 4.2 of RFC 2047. */
  function DecodeQ(text: string): Option<seq<Byte>>
    decreases |text|
  {
    if text == "" then Some([])
    else
      var n := if text[0] == '=' then 3 else 1;
      if |text| < n || !IsGraphic(text[0]) || (n == 3 && !(IsHexDigit(text[1]) && IsHexDigit(text[2]))) then None
      else
        var byte := if n == 3 then 16 * HexValue(text[1]) + HexValue(text[2])
                    else if text[0] == '_' then 0x20 else text[0] as int;
        var rest := DecodeQ(text[n..]);
        if rest.None? then None else Some([byte] + rest.value)
  }

  function DecodedBytes(encoding: string, text: string): Option<seq<Byte>> {
    if Lower(encoding) == "b" then Decode(text) else if Lower(encoding) == "q" then DecodeQ(text) else None
  }

  function DecodedText(charset: string, encoding: string, text: string): Option<string> {
    var bytes := DecodedBytes(encoding, text);
    if Lower(charset) != "utf-8" || bytes.None? then None else FromUtf8(bytes.value)
  }

  /** Sections 2 and 4 of RFC 2047: the names of charset and encoding in any case. */
  ghost function ReadWord(word: string): Option<string> {
    if IsEncodedWord(word) then
      var charset, encoding, text :| IsEncodedWordOf(word, charset, encoding, text);
      DecodedText(charset, encoding, text)
    else None
  }

  /** The reader decodes by the parts of the word, and nothing else. */
  lemma ReadWordIs(word: string, charset: string, encoding: string, text: string)
    requires IsEncodedWordOf(word, charset, encoding, text) && |word| <= 75
    ensures IsEncodedWord(word) && ReadWord(word) == DecodedText(charset, encoding, text)
  {
    hide IsEncodedWordOf, DecodedText;
    var c, e, t :| IsEncodedWordOf(word, c, e, t) && ReadWord(word) == DecodedText(c, e, t);
    PartsAreUnique(word, charset, encoding, text, c, e, t);
  }

  lemma {:induction false} DecodedIsShorter(s: string)
    ensures Decode(s).Some? ==> |Decode(s).value| <= |s|
    decreases |s|
  {
    hide Value, IsSymbol;
    if |s| >= 4 {
      DecodedIsShorter(s[4..]);
    }
  }

  lemma {:induction false} DecodedQIsShorter(s: string)
    ensures DecodeQ(s).Some? ==> |DecodeQ(s).value| <= |s|
    decreases |s|
  {
    hide IsHexDigit, HexValue, IsGraphic;
    if s != "" {
      var n := if s[0] == '=' then 3 else 1;
      if n <= |s| {
        DecodedQIsShorter(s[n..]);
      }
    }
  }

  lemma {:induction false} TextIsShorter(bytes: seq<Byte>)
    ensures FromUtf8(bytes).Some? ==> |FromUtf8(bytes).value| <= |bytes|
    decreases |bytes|
  {
    hide CharUtf8, Scalar;
    if bytes != [] && Announced(bytes[0]) <= |bytes| {
      TextIsShorter(bytes[Announced(bytes[0])..]);
    }
  }

  lemma ReadWordShortens(word: string)
    requires ReadWord(word).Some?
    ensures IsEncodedWord(word) && |ReadWord(word).value| < |word|
  {
    hide Decode, DecodeQ, FromUtf8, Lower, IsEncodedWordOf;
    var charset, encoding, text :| IsEncodedWordOf(word, charset, encoding, text);
    ReadWordIs(word, charset, encoding, text);
    PartsSay(word, charset, encoding, text);
    DecodedIsShorter(text);
    DecodedQIsShorter(text);
    TextIsShorter(DecodedBytes(encoding, text).value);
  }

  predicate IsUtf8Name(charset: string) {
    Lower(charset) == "utf-8"
  }

  lemma LowerIs(s: string)
    ensures |Lower(s)| == |s| && forall k | 0 <= k < |s| :: Lower(s)[k] == LowerChar(s[k])
  {
  }

  lemma NamesAreTokens(charset: string, encoding: string)
    requires IsUtf8Name(charset) && (Lower(encoding) == "b" || Lower(encoding) == "q")
    ensures IsEncodedWordToken(charset, true) && IsEncodedWordToken(encoding, false)
    ensures |charset| == 5 && |encoding| == 1
  {
    LowerIs(charset);
    LowerIs(encoding);
    hide Lower;
  }

  function Spelled(charset: string, encoding: string, text: string): string {
    "=?" + charset + "?" + encoding + "?" + text + "?="
  }

  lemma SpelledIsRead(charset: string, encoding: string, text: string)
    requires IsUtf8Name(charset) && (Lower(encoding) == "b" || Lower(encoding) == "q")
    requires text != "" && IsWordText(text) && |text| <= 63
    ensures var word := Spelled(charset, encoding, text);
      IsEncodedWord(word) && |word| == |text| + 12 && ReadWord(word) == DecodedText(charset, encoding, text)
  {
    NamesAreTokens(charset, encoding);
    hide IsEncodedWordToken, DecodedText, Lower, ReadWord;
    var word := Spelled(charset, encoding, text);
    assert IsEncodedWordOf(word, charset, encoding, text);
    ReadWordIs(word, charset, encoding, text);
  }

  lemma Utf8IsRead(charset: string, encoding: string, text: string, payload: string)
    requires IsUtf8Name(charset) && DecodedBytes(encoding, payload) == Some(ToUtf8(text))
    ensures DecodedText(charset, encoding, payload) == Some(text)
  {
    hide ToUtf8, FromUtf8, DecodedBytes;
    ReadingUndoesWriting(text);
  }

  /** Base64 words of a text, however charset and encoding are spelled. */
  lemma Base64WordIsRead(charset: string, encoding: string, text: string)
    requires IsUtf8Name(charset) && Lower(encoding) == "b"
    requires text != "" && ByteLength(text) <= ENCODED_WORD_INPUT_BYTES
    ensures var word := Spelled(charset, encoding, Encode(ToUtf8(text)));
      IsEncodedWord(word) && |word| <= 64 && ReadWord(word) == Some(text)
  {
    hide Encode, Decode, ToUtf8, ByteLength, Lower, IsUtf8Name, IsWordText, ReadWord, DecodedText, Spelled, FromUtf8;
    var bytes := ToUtf8(text);
    Utf8Length(text);
    ByteLengthIsNone(text);
    EncodedLength(bytes);
    EncodedIsWordText(bytes);
    DecodingUndoesEncoding(bytes);
    assert DecodedBytes(encoding, Encode(bytes)) == Some(bytes);
    Utf8IsRead(charset, encoding, text, Encode(bytes));
    SpelledIsRead(charset, encoding, Encode(bytes));
  }

  predicate AreAlphanumeric(text: string) {
    forall k | 0 <= k < |text| :: IsAlphanumeric(text[k])
  }

  lemma {:induction false} LettersDecode(text: string)
    requires AreAlphanumeric(text)
    ensures DecodeQ(text) == Some(ToUtf8(text))
    decreases |text|
  {
    if text != "" {
      LettersDecode(text[1..]);
      assert CharUtf8(text[0]) == [text[0] as int];
    }
  }

  lemma LettersAreWordText(text: string)
    requires AreAlphanumeric(text)
    ensures IsWordText(text)
  {
  }

  /** Q words, whose letters and digits stand for themselves. */
  lemma QWordIsRead(charset: string, encoding: string, text: string)
    requires IsUtf8Name(charset) && Lower(encoding) == "q"
    requires text != "" && AreAlphanumeric(text) && |text| <= 57
    ensures var word := Spelled(charset, encoding, text);
      IsEncodedWord(word) && |word| <= 69 && ReadWord(word) == Some(text)
  {
    hide Decode, DecodeQ, ToUtf8, Lower, IsUtf8Name, IsWordText, ReadWord, DecodedText, Spelled, FromUtf8,
         AreAlphanumeric;
    LettersDecode(text);
    LettersAreWordText(text);
    assert DecodedBytes(encoding, text) == Some(ToUtf8(text));
    Utf8IsRead(charset, encoding, text, text);
    SpelledIsRead(charset, encoding, text);
  }

  lemma WrittenIsSpelled(chunk: string)
    ensures Word(chunk) == Spelled("UTF-8", "B", Encode(ToUtf8(chunk)))
    ensures IsUtf8Name("UTF-8") && IsUtf8Name("utf-8")
    ensures Lower("B") == Lower("b") == "b" && Lower("Q") == Lower("q") == "q"
  {
    hide Encode, ToUtf8;
    assert "UTF-8"[1..] == "TF-8" && "TF-8"[1..] == "F-8" && "F-8"[1..] == "-8" && "-8"[1..] == "8" && "8"[1..] == "";
    assert "utf-8"[1..] == "tf-8" && "tf-8"[1..] == "f-8" && "f-8"[1..] == "-8";
    assert "B"[1..] == "" && "b"[1..] == "" && "Q"[1..] == "" && "q"[1..] == "";
    var encoded := Encode(ToUtf8(chunk));
    assert "=?UTF-8?B?" + encoded == "=?" + "UTF-8" + "?" + "B" + "?" + encoded;
  }

  /** This reader is one, so the round trip holds for it. */
  lemma ReadWordIsReader()
    ensures IsReader(ReadWord)
  {
    hide *;
    forall word | ReadWord(word).Some?
      ensures |ReadWord(word).value| < |word|
    {
      ReadWordShortens(word);
    }
    forall chunk | chunk != "" && ByteLength(chunk) <= ENCODED_WORD_INPUT_BYTES
      ensures ReadWord(Word(chunk)) == Some(chunk)
    {
      WrittenIsSpelled(chunk);
      Base64WordIsRead("UTF-8", "B", chunk);
    }
    ReaderIs(ReadWord);
  }

  lemma ReaderIs(read: string -> Option<string>)
    requires forall word | read(word).Some? :: |read(word).value| < |word|
    requires forall chunk | chunk != "" && ByteLength(chunk) <= ENCODED_WORD_INPUT_BYTES ::
      read(Word(chunk)) == Some(chunk)
    ensures IsReader(read)
  {
  }

  /** So in every spelling the base64 word of a text, as a subject, reads as the text. */
  lemma Base64WordIsNoSubject(charset: string, encoding: string, text: string)
    requires IsUtf8Name(charset) && Lower(encoding) == "b"
    requires text != "" && ByteLength(text) <= ENCODED_WORD_INPUT_BYTES
    ensures var subject := Spelled(charset, encoding, Encode(ToUtf8(text)));
      && IsHeaderText(subject) && SubjectTokens(subject) == [subject]
      && Shown(subject, false, ReadWord) == text != subject
  {
    hide *;
    ReadWordIsReader();
    Base64WordIsRead(charset, encoding, text);
    ReadWordIsNoSubject(Spelled(charset, encoding, Encode(ToUtf8(text))), ReadWord);
  }

  /** And so does every Q word. */
  lemma QWordIsNoSubject(charset: string, encoding: string, text: string)
    requires IsUtf8Name(charset) && Lower(encoding) == "q"
    requires text != "" && AreAlphanumeric(text) && |text| <= 57
    ensures var subject := Spelled(charset, encoding, text);
      && IsHeaderText(subject) && SubjectTokens(subject) == [subject]
      && Shown(subject, false, ReadWord) == text != subject
  {
    hide *;
    ReadWordIsReader();
    QWordIsRead(charset, encoding, text);
    ReadWordIsNoSubject(Spelled(charset, encoding, text), ReadWord);
  }

  /** Reads what `ReadWord` does, and shows nothing for any other encoded word. */
  ghost function EagerRead(word: string): Option<string> {
    if ReadWord(word).None? && IsEncodedWord(word) then Some("") else ReadWord(word)
  }

  lemma EagerReadIsReader()
    ensures ReadsOnlyWords(EagerRead) && forall word | IsEncodedWord(word) :: EagerRead(word).Some?
  {
    ReadWordIsReader();
    forall word | EagerRead(word).Some?
      ensures IsEncodedWord(word) && |EagerRead(word).value| < |word|
    {
      WordIsSomething(word);
      if ReadWord(word).Some? {
        ReadWordShortens(word);
      }
    }
    hide ReadWord, IsEncodedWord, Word, ByteLength;
    assert IsReader(EagerRead);
  }

  lemma WordIsSomething(word: string)
    ensures IsEncodedWord(word) ==> word != ""
  {
    hide IsEncodedWordToken, AllGraphic;
  }

  lemma EncodedWordIsEagerlyRead(v: string)
    requires HasEncodedWord(v)
    ensures HasReadWord(v, EagerRead)
  {
    EagerReadIsReader();
    hide IsEncodedWord, EagerRead, ReadsOnlyWords;
  }

  /** What no reader may change: a subject reads back under every reader that leaves
      other words alone if and only if it was encoded or holds no encoded word. */
  lemma SubjectReadsBackAnywhere(subject: string)
    requires IsHeaderText(subject)
    ensures (forall read | ReadsOnlyWords(read) :: ReadsBack(subject, read)) <==>
      NeedsWords(subject) || !HasEncodedWord(subject)
  {
    hide *;
    forall read | ReadsOnlyWords(read)
      ensures ReadsBack(subject, read) <==> NeedsWords(subject) || !HasReadWord(subject, read)
      ensures HasReadWord(subject, read) ==> HasEncodedWord(subject)
    {
      OnlyWordsIsReader(read);
      SubjectReadsBack(subject, read);
      if HasReadWord(subject, read) {
        ReadWordsAreEncoded(subject, read);
      }
    }
    EagerReadIsReader();
    if HasEncodedWord(subject) {
      EncodedWordIsEagerlyRead(subject);
    }
  }

  lemma OnlyWordsIsReader(read: string -> Option<string>)
    requires ReadsOnlyWords(read)
    ensures IsReader(read)
  {
  }

  lemma ReadWordReadsOnlyWords()
    ensures ReadsOnlyWords(ReadWord)
  {
    ReadWordIsReader();
    hide IsReader, IsEncodedWord;
  }
}
