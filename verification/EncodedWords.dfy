// The Subject header (crates/notm-mail/src/rfc5322.rs, `write_subject_header`,
// `encode_words`, `utf8_chunks`): long or non-ASCII subjects become encoded
// words as in sections 2 and 6.2 of RFC 2047, one to a line.
module EncodedWords {
  import opened MailText
  import opened Base64
  import opened ThreadingHeader
  import opened Utf8

  const ENCODED_WORD_INPUT_BYTES: nat := 39

  // ---- Chunks

  /** The chunks of what is left, the first of which has begun. */
  function Chunks(rest: string, current: string, max: nat): seq<string> {
    if rest == "" then [current]
    else if current != "" && ByteLength(current) + CharBytes(rest[0]) > max then
      [current] + Chunks(rest[1..], [rest[0]], max)
    else Chunks(rest[1..], current + [rest[0]], max)
  }

  method Utf8Chunks(value: string, max: nat) returns (chunks: seq<string>)
    ensures chunks == Chunks(value, "", max)
  {
    hide *;
    chunks := [];
    var start, bytes := 0, 0;
    ByteLengthIsNone("");
    assert value[0..] == value && value[0..0] == "";
    for offset := 0 to |value|
      invariant start <= offset && bytes == ByteLength(value[start..offset])
      invariant Chunks(value, "", max) == chunks + Chunks(value[offset..], value[start..offset], max)
    {
      ByteLengthIsNone(value[start..offset]);
      ChunkStep(value, start, offset, max);
      if bytes != 0 && bytes + CharBytes(value[offset]) > max {
        PushChunk(chunks, value[start..offset], Chunks(value[offset + 1..], [value[offset]], max));
        chunks := chunks + [value[start..offset]];
        start := offset;
        bytes := 0;
      }
      bytes := bytes + CharBytes(value[offset]);
    }
    LastChunk(value, start, max);
    chunks := chunks + [value[start..]];
  }

  lemma PushChunk(chunks: seq<string>, chunk: string, rest: seq<string>)
    ensures chunks + ([chunk] + rest) == chunks + [chunk] + rest
  {
  }

  lemma LastChunk(value: string, start: nat, max: nat)
    requires start <= |value|
    ensures Chunks(value[|value|..], value[start..|value|], max) == [value[start..]]
  {
    assert value[start..|value|] == value[start..];
  }

  lemma ByteLengthIsNone(s: string)
    ensures ByteLength(s) == 0 <==> s == ""
  {
  }

  lemma ChunkStep(value: string, start: nat, offset: nat, max: nat)
    requires start <= offset < |value|
    ensures var (current, c) := (value[start..offset], value[offset]);
      && value[start..offset + 1] == current + [c] && value[offset..offset + 1] == [c]
      && ByteLength(current + [c]) == ByteLength(current) + CharBytes(c) && ByteLength([c]) == CharBytes(c)
      && Chunks(value[offset..], current, max) ==
           if current != "" && ByteLength(current) + CharBytes(c) > max
           then [current] + Chunks(value[offset + 1..], [c], max)
           else Chunks(value[offset + 1..], current + [c], max)
  {
    assert value[offset..][1..] == value[offset + 1..];
    assert (value[start..offset] + [value[offset]])[..offset - start] == value[start..offset];
    assert [value[offset]][..0] == "";
  }

  /** Chunks within the limit, none of which could have held one more character. */
  predicate AreFull(chunks: seq<string>, max: nat) {
    && (forall k | 0 <= k < |chunks| :: ByteLength(chunks[k]) <= max)
    && (forall k | 0 < k < |chunks| :: WasFull(chunks, k, max))
  }

  predicate WasFull(chunks: seq<string>, k: int, max: nat)
    requires 0 < k < |chunks|
  {
    chunks[k] != "" && ByteLength(chunks[k - 1]) + CharBytes(chunks[k][0]) > max
  }

  lemma FullStep(chunk: string, rest: seq<string>, max: nat)
    requires ByteLength(chunk) <= max && AreFull(rest, max)
    requires rest != [] && rest[0] != "" && ByteLength(chunk) + CharBytes(rest[0][0]) > max
    ensures AreFull([chunk] + rest, max) && Concatenated([chunk] + rest) == chunk + Concatenated(rest)
  {
    hide ByteLength, CharBytes;
    var all := [chunk] + rest;
    assert all[1..] == rest;
    forall k | 0 < k < |all|
      ensures WasFull(all, k, max)
    {
      if k > 1 {
        assert WasFull(rest, k - 1, max);
      }
    }
  }

  lemma OneChunk(chunk: string, max: nat)
    requires ByteLength(chunk) <= max
    ensures AreFull([chunk], max) && Concatenated([chunk]) == chunk
  {
    hide ByteLength;
    assert Concatenated([chunk]) == chunk + Concatenated([]);
    assert chunk + "" == chunk;
  }

  /** Cutting between characters loses and adds nothing. */
  lemma {:induction false} ChunksCover(rest: string, current: string, max: nat)
    requires max >= 4 && ByteLength(current) <= max
    ensures var chunks := Chunks(rest, current, max);
      && Concatenated(chunks) == current + rest && AreFull(chunks, max)
      && chunks != [] && current <= chunks[0] && (chunks[0] == "" ==> rest == "")
    decreases |rest|
  {
    hide AreFull, Concatenated, ByteLength, CharBytes;
    if rest == "" {
      assert current + rest == current;
      OneChunk(current, max);
    } else {
      var c, tail := rest[0], rest[1..];
      AddingChar(current, c);
      assert [c] + tail == rest;
      if current != "" && ByteLength(current) + CharBytes(c) > max {
        ChunksCover(tail, [c], max);
        FullStep(current, Chunks(tail, [c], max), max);
      } else {
        ChunksCover(tail, current + [c], max);
        assert current + [c] + tail == current + rest;
      }
    }
  }

  lemma AddingChar(current: string, c: char)
    ensures ByteLength(current + [c]) == ByteLength(current) + CharBytes(c)
    ensures ByteLength([c]) == CharBytes(c) <= 4 && (current == "" ==> ByteLength(current) == 0)
  {
    assert (current + [c])[..|current|] == current;
    assert [c][..0] == "";
  }

  // ---- Encoded words

  function Word(chunk: string): string {
    "=?UTF-8?B?" + Encode(ToUtf8(chunk)) + "?="
  }

  function Words(chunks: seq<string>): seq<string> {
    if chunks == [] then [] else [Word(chunks[0])] + Words(chunks[1..])
  }

  method EncodeWords(value: string) returns (words: seq<string>)
    ensures words == if value == "" then [""] else Words(Chunks(value, "", ENCODED_WORD_INPUT_BYTES))
  {
    if value == "" {
      return [""];
    }
    var chunks := Utf8Chunks(value, ENCODED_WORD_INPUT_BYTES);
    words := Words(chunks);
  }

  lemma {:induction false} EncodedLength(bytes: seq<Byte>)
    ensures |Encode(bytes)| == (|bytes| + 2) / 3 * 4
    decreases |bytes|
  {
    hide Value, Symbol;
    if |bytes| >= 3 {
      EncodedLength(bytes[3..]);
    }
  }

  /** Section 2 of RFC 2047: printable and no question mark. */
  predicate IsWordText(s: string) {
    forall k | 0 <= k < |s| :: IsGraphic(s[k]) && s[k] != '?'
  }

  lemma {:induction false} EncodedIsWordText(bytes: seq<Byte>)
    ensures IsWordText(Encode(bytes))
    decreases |bytes|
  {
    SymbolsAreWordText();
    hide Symbol, IsGraphic;
    if |bytes| >= 3 {
      EncodedIsWordText(bytes[3..]);
      assert Encode(bytes)[4..] == Encode(bytes[3..]);
    }
  }

  lemma SymbolsAreWordText()
    ensures IsGraphic('=') && forall v | 0 <= v < 64 :: IsGraphic(Symbol(v)) && Symbol(v) != '?'
  {
  }

  lemma EncodedWordLength(chunk: string)
    ensures |Word(chunk)| == 12 + (ByteLength(chunk) + 2) / 3 * 4
    ensures ByteLength(Word(chunk)) == |Word(chunk)|
    ensures forall k | 0 <= k < |Word(chunk)| :: IsGraphic(Word(chunk)[k])
  {
    hide Encode, ToUtf8, ByteLength;
    EncodedLength(ToUtf8(chunk));
    EncodedIsWordText(ToUtf8(chunk));
    Utf8Length(chunk);
    var prefix, encoded := "=?UTF-8?B?", Encode(ToUtf8(chunk));
    assert forall k | 0 <= k < |prefix| :: IsGraphic(prefix[k]);
    assert Word(chunk) == prefix + encoded + "?=";
    AsciiByteLength(Word(chunk));
  }

  // ---- One word to a line

  function OnePerLine(tokens: seq<string>): string {
    if tokens == [] then "" else "\r\n " + tokens[0] + OnePerLine(tokens[1..])
  }

  lemma NoRoom(chunks: seq<string>)
    requires AreFull(chunks, ENCODED_WORD_INPUT_BYTES) && |chunks| > 1
    ensures 1 + |Word(chunks[0])| + 1 + |Word(chunks[1])| > RECOMMENDED_HEADER_LINE_LENGTH
  {
    assert WasFull(chunks, 1, ENCODED_WORD_INPUT_BYTES);
    var (a, b) := (chunks[0], chunks[1]);
    assert b == [b[0]] + b[1..];
    ByteLengthConcat([b[0]], b[1..]);
    AddingChar("", b[0]);
    assert "" + [b[0]] == [b[0]];
    EncodedWordLength(a);
    EncodedWordLength(b);
    hide Word, ByteLength, CharBytes;
  }

  lemma FullTail(chunks: seq<string>, max: nat)
    requires AreFull(chunks, max) && chunks != []
    ensures AreFull(chunks[1..], max)
  {
    hide ByteLength, CharBytes;
    var rest := chunks[1..];
    forall k | 0 < k < |rest|
      ensures WasFull(rest, k, max)
    {
      assert WasFull(chunks, k + 1, max);
    }
  }

  /** Where the first word does not fit, neither does any other beside it. */
  lemma {:induction false} WordsTakeLines(chunks: seq<string>, column: nat)
    requires AreFull(chunks, ENCODED_WORD_INPUT_BYTES)
    requires chunks != [] ==> column + 1 + |Word(chunks[0])| > RECOMMENDED_HEADER_LINE_LENGTH
    ensures Folded(Words(chunks), column) == OnePerLine(Words(chunks))
    decreases |chunks|
  {
    if chunks != [] {
      hide Word, ByteLength, AreFull;
      EncodedWordLength(chunks[0]);
      if |chunks| > 1 {
        NoRoom(chunks);
      }
      FullTail(chunks, ENCODED_WORD_INPUT_BYTES);
      WordsTakeLines(chunks[1..], 1 + |Word(chunks[0])|);
      assert Words(chunks)[1..] == Words(chunks[1..]);
    }
  }

  lemma WordIsShort(chunks: seq<string>, k: nat)
    requires AreFull(chunks, ENCODED_WORD_INPUT_BYTES) && k < |chunks|
    ensures |Word(chunks[k])| <= 64
  {
    EncodedWordLength(chunks[k]);
    hide Word, CharBytes;
  }

  // ---- The header

  predicate NeedsWords(subject: string) {
    !AllAscii(subject) || ByteLength("Subject: ") + ByteLength(subject) > RECOMMENDED_HEADER_LINE_LENGTH
  }

  function SubjectTokens(subject: string): seq<string> {
    if !NeedsWords(subject) then [subject]
    else if subject == "" then [""]
    else Words(Chunks(subject, "", ENCODED_WORD_INPUT_BYTES))
  }

  method WriteSubjectHeader(buffer: MessageBuffer, subject: string) returns (ok: bool)
    modifies buffer
    ensures ok <==> IsHeaderText(subject)
    ensures ok ==>
      buffer.out ==
        old(buffer.out) + "Subject" + ":" + Folded(SubjectTokens(subject), ByteLength("Subject") + 1) + "\r\n"
    ensures old(buffer.out) <= buffer.out
  {
    hide *;
    if !IsHeaderText(subject) {
      return false;
    }
    var tokens := [subject];
    SubjectTokensAre(subject);
    if NeedsWords(subject) {
      tokens := EncodeWords(subject);
    }
    TokensAreWritable(subject);
    ok := buffer.WriteTokenHeader("Subject", tokens);
  }

  lemma SubjectTokensAre(subject: string)
    ensures SubjectTokens(subject) ==
      if NeedsWords(subject)
      then (if subject == "" then [""] else Words(Chunks(subject, "", ENCODED_WORD_INPUT_BYTES)))
      else [subject]
  {
  }

  lemma TokensAreWritable(subject: string)
    requires IsHeaderText(subject)
    ensures forall k | 0 <= k < |SubjectTokens(subject)| :: IsWritable(SubjectTokens(subject)[k])
  {
    if NeedsWords(subject) && subject != "" {
      ChunksCover(subject, "", ENCODED_WORD_INPUT_BYTES);
      WordsAreWritable(Chunks(subject, "", ENCODED_WORD_INPUT_BYTES));
    } else {
      AddingChar("", 'a');
    }
    hide Chunks, Words;
  }

  lemma {:induction false} WordsAreWritable(chunks: seq<string>)
    requires AreFull(chunks, ENCODED_WORD_INPUT_BYTES)
    ensures |Words(chunks)| == |chunks|
    ensures forall k | 0 <= k < |chunks| :: Words(chunks)[k] == Word(chunks[k]) && IsWritable(Words(chunks)[k])
  {
    if chunks != [] {
      WordIsShort(chunks, 0);
      EncodedWordLength(chunks[0]);
      FullTail(chunks, ENCODED_WORD_INPUT_BYTES);
      hide Word, AreFull, ByteLength;
      WordsAreWritable(chunks[1..]);
    }
  }

  // ---- What a subject becomes and reads back as

  /** Encoded words are at most 64 characters, stand one to a line, and make no
      physical line longer than 73; a plain subject makes one line of at most 78. */
  lemma SubjectLinesAreShort(subject: string)
    ensures var tokens := SubjectTokens(subject);
      && tokens != [] && Folded(tokens, ByteLength("Subject") + 1) == " " + tokens[0] + OnePerLine(tokens[1..])
      && (NeedsWords(subject) ==> forall k | 0 <= k < |tokens| :: ByteLength(tokens[k]) == |tokens[k]| <= 64)
      && (!NeedsWords(subject) ==> tokens == [subject] && |"Subject: "| + |subject| <= 78)
  {
    AsciiByteLength("Subject");
    AsciiByteLength("Subject: ");
    if NeedsWords(subject) && subject != "" {
      var chunks := Chunks(subject, "", ENCODED_WORD_INPUT_BYTES);
      ChunksCover(subject, "", ENCODED_WORD_INPUT_BYTES);
      SubjectLinesOfWords(chunks);
    } else if !NeedsWords(subject) {
      AsciiByteLength(subject);
    }
    hide Words, Chunks;
  }

  lemma SubjectLinesOfWords(chunks: seq<string>)
    requires chunks != [] && AreFull(chunks, ENCODED_WORD_INPUT_BYTES)
    ensures var tokens := Words(chunks);
      && tokens != [] && Folded(tokens, 8) == " " + tokens[0] + OnePerLine(tokens[1..])
      && forall k | 0 <= k < |tokens| :: ByteLength(tokens[k]) == |tokens[k]| <= 64
  {
    hide Word, AreFull, ByteLength;
    var tokens := Words(chunks);
    WordsAreWritable(chunks);
    forall k | 0 <= k < |tokens|
      ensures ByteLength(tokens[k]) == |tokens[k]| <= 64
    {
      WordIsShort(chunks, k);
      EncodedWordLength(chunks[k]);
    }
    if |chunks| > 1 {
      NoRoom(chunks);
    }
    FullTail(chunks, ENCODED_WORD_INPUT_BYTES);
    assert tokens[1..] == Words(chunks[1..]);
    WordsTakeLines(chunks[1..], 9 + |Word(chunks[0])|);
  }

  /** A subject is written as it is exactly if it is ASCII and leaves room for the
      name on its line. */
  lemma SubjectIsPlainExactly(subject: string)
    ensures SubjectTokens(subject) == [subject] <==>
      |"Subject: "| + |subject| <= 78 && forall k | 0 <= k < |subject| :: subject[k] as int < 128
  {
    AsciiByteLength("Subject: ");
    if AllAscii(subject) {
      AsciiByteLength(subject);
    }
    if NeedsWords(subject) {
      assert subject != "";
      var chunks := Chunks(subject, "", ENCODED_WORD_INPUT_BYTES);
      ChunksCover(subject, "", ENCODED_WORD_INPUT_BYTES);
      WordIsShort(chunks, 0);
      EncodedWordLength(chunks[0]);
      assert SubjectTokens(subject)[0] == Word(chunks[0]);
    }
    hide Words, Chunks, Word, ByteLength, AreFull;
  }
}
