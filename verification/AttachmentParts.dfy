// The parts of a message with attachments (crates/notm-mail/src/rfc5322.rs,
// `render_attachment`): a part carried in base64 never holds a delimiter line,
// whatever its bytes and whatever the boundary.
module AttachmentParts {
  import opened MailText
  import opened Base64
  import opened Multipart
  import opened Preflight

  // ---- Lines that are no delimiters

  /** No line starts with a dash. */
  predicate HasNoDashLine(text: string) {
    forall i | 0 <= i < |text| :: text[i] == '-' ==> i > 0 && text[i - 1] != '\n'
  }

  lemma NoDashNoDelimiter(text: string, boundary: string)
    requires HasNoDashLine(text)
    ensures !HasDelimiterLine(text, Delimiter(boundary))
  {
    hide IsDelimiterTail;
    var delimiter := Delimiter(boundary);
    forall i: nat
      ensures !IsDelimiterLine(text, 0, i, delimiter)
    {
      if IsMatch(text, i, delimiter) {
        assert delimiter[0] == '-' && text[i] == text[i..i + |delimiter|][0];
      }
    }
  }

  lemma DashLinesConcat(a: string, b: string)
    requires HasNoDashLine(a) && HasNoDashLine(b)
    ensures HasNoDashLine(a + b)
  {
  }

  lemma DashLinesOfPrefix(text: string, n: nat)
    requires HasNoDashLine(text) && n <= |text|
    ensures HasNoDashLine(text[..n])
  {
  }

  // ---- The rendered attachment

  predicate HoldsNo(s: string, c: char) {
    forall k | 0 <= k < |s| :: s[k] != c
  }

  lemma {:induction false} EncodedHoldsNoDash(bytes: seq<Byte>)
    ensures HoldsNo(Encode(bytes), '-')
    decreases |bytes|
  {
    DashIsNoSymbol();
    hide Symbol;
    if |bytes| >= 3 {
      EncodedHoldsNoDash(bytes[3..]);
    }
  }

  lemma DashIsNoSymbol()
    ensures forall v | 0 <= v < 64 :: Symbol(v) != '-'
  {
  }

  lemma {:induction false} WrappedHoldsNoDash(encoded: string)
    requires HoldsNo(encoded, '-')
    ensures HoldsNo(Wrapped(encoded), '-')
    decreases |encoded|
  {
    if encoded != "" {
      WrappedHoldsNoDash(encoded[if |encoded| < LINE_LENGTH then |encoded| else LINE_LENGTH..]);
    }
  }

  /** A header field or a parameter: it starts with a letter or with a space. */
  predicate IsFieldLine(line: string) {
    line != "" && line[0] != '-' && HoldsNo(line, '\n')
  }

  function Lines(lines: seq<string>): string {
    if lines == [] then "" else lines[0] + "\r\n" + Lines(lines[1..])
  }

  function AttachmentPart(fields: seq<string>, bytes: seq<Byte>): (part: string)
    ensures part != ""
  {
    Lines(fields) + "\r\n" + if bytes == [] then "\r\n" else Wrapped(Encode(bytes))
  }

  lemma LineHasNoDash(line: string)
    requires IsFieldLine(line)
    ensures HasNoDashLine(line + "\r\n")
  {
  }

  lemma {:induction false} FieldsHaveNoDash(fields: seq<string>)
    requires forall k | 0 <= k < |fields| :: IsFieldLine(fields[k])
    ensures HasNoDashLine(Lines(fields))
  {
    hide IsFieldLine, HasNoDashLine;
    if fields == [] {
      NoLines();
    } else {
      LineHasNoDash(fields[0]);
      FieldsHaveNoDash(fields[1..]);
      DashLinesConcat(fields[0] + "\r\n", Lines(fields[1..]));
    }
  }

  lemma NoLines()
    ensures HasNoDashLine("") && HasNoDashLine("\r\n")
  {
  }

  lemma TextWithoutDash(text: string)
    requires HoldsNo(text, '-')
    ensures HasNoDashLine(text)
  {
  }

  lemma AttachmentHasNoDash(fields: seq<string>, bytes: seq<Byte>)
    requires forall k | 0 <= k < |fields| :: IsFieldLine(fields[k])
    ensures HasNoDashLine(AttachmentPart(fields, bytes))
  {
    hide IsFieldLine, HasNoDashLine, HoldsNo, Lines, Wrapped, Encode;
    FieldsHaveNoDash(fields);
    NoLines();
    EncodedHoldsNoDash(bytes);
    WrappedHoldsNoDash(Encode(bytes));
    TextWithoutDash(Wrapped(Encode(bytes)));
    DashLinesConcat(Lines(fields), "\r\n");
    DashLinesConcat(Lines(fields) + "\r\n", if bytes == [] then "\r\n" else Wrapped(Encode(bytes)));
  }

  /** No attachment carried in base64 holds a delimiter line, of any boundary. */
  lemma AttachmentsHoldNoDelimiter(fields: seq<string>, bytes: seq<Byte>, boundary: string)
    requires forall k | 0 <= k < |fields| :: IsFieldLine(fields[k])
    ensures !HasDelimiterLine(WithoutLineEnd(AttachmentPart(fields, bytes)), Delimiter(boundary))
  {
    hide *;
    var part := AttachmentPart(fields, bytes);
    AttachmentHasNoDash(fields, bytes);
    WithoutLineEndIs(part);
    DashLinesOfPrefix(part, |WithoutLineEnd(part)|);
    NoDashNoDelimiter(WithoutLineEnd(part), boundary);
  }

  lemma WithoutLineEndIs(part: string)
    ensures |WithoutLineEnd(part)| <= |part| && WithoutLineEnd(part) == part[..|WithoutLineEnd(part)|]
  {
  }

  // ---- The whole body

  predicate IsAttachmentPart(part: string, fields: seq<string>, bytes: seq<Byte>) {
    part == AttachmentPart(fields, bytes) && forall k | 0 <= k < |fields| :: IsFieldLine(fields[k])
  }

  ghost predicate IsAttachment(part: string) {
    exists fields, bytes :: IsAttachmentPart(part, fields, bytes)
  }

  lemma {:induction false} AttachmentsAreClean(contents: seq<string>, boundary: string)
    requires forall k | 0 <= k < |contents| :: IsAttachment(contents[k])
    ensures NoDelimiterLines(WithoutLineEnds(contents), Delimiter(boundary))
  {
    hide *;
    WithoutLineEndsUnfold(contents);
    if contents == [] {
      NoDelimiterLinesNone([], Delimiter(boundary));
    } else {
      var fields, bytes := AttachmentIs(contents[0]);
      AttachmentsHoldNoDelimiter(fields, bytes, boundary);
      AttachmentsAreClean(contents[1..], boundary);
      NoDelimiterLinesCons(WithoutLineEnds(contents), Delimiter(boundary));
    }
  }

  lemma AttachmentIs(part: string) returns (fields: seq<string>, bytes: seq<Byte>)
    requires IsAttachment(part)
    ensures part == AttachmentPart(fields, bytes) && forall k | 0 <= k < |fields| :: IsFieldLine(fields[k])
  {
    hide IsFieldLine, AttachmentPart;
    fields, bytes :| IsAttachmentPart(part, fields, bytes);
  }

  lemma WithoutLineEndsUnfold(contents: seq<string>)
    ensures contents == [] ==> WithoutLineEnds(contents) == []
    ensures contents != [] ==>
      var parts := WithoutLineEnds(contents);
      parts != [] && parts[0] == WithoutLineEnd(contents[0]) && parts[1..] == WithoutLineEnds(contents[1..])
  {
  }

  /** A mixed body of a text part and attachments is walked as what was written if
      and only if the text part holds no delimiter line: no attachment can spoil it. */
  lemma AttachmentsAreRead(raw: string, bodyStart: nat, boundary: string, text: string, attachments: seq<string>,
                           read: string -> Headers)
    requires IsOneLine(boundary) && forall k | 0 <= k < |attachments| :: IsAttachment(attachments[k])
    requires read(raw) == Composite(bodyStart, boundary) && bodyStart <= |raw|
    requires raw[bodyStart..] == Joined(WithoutLineEnds([text] + attachments), Delimiter(boundary))
    ensures Children(raw, read) == WithoutLineEnds([text] + attachments) <==>
      !HasDelimiterLine(WithoutLineEnd(text), Delimiter(boundary))
  {
    hide *;
    var contents := [text] + attachments;
    WithoutLineEndsUnfold(contents);
    assert contents[1..] == attachments;
    AttachmentsAreClean(attachments, boundary);
    NoDelimiterLinesCons(WithoutLineEnds(contents), Delimiter(boundary));
    WrittenPartsAreRead(raw, bodyStart, boundary, WithoutLineEnds(contents), read);
  }
}
