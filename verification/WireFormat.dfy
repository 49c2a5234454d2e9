// What goes on the wire (crates/notm-mail/src/rfc5322.rs, `validate_wire`): lines
// of at most 998 bytes, each ended by CRLF. Whatever the writers make passes.
module WireFormat {
  import opened MailText
  import opened Base64
  import opened Multipart
  import opened Preflight
  import opened AttachmentParts
  import opened ThreadingHeader
  import opened EncodedWords
  import MimeParameter

  predicate IsWireLine(line: string) {
    IsOneLine(line) && ByteLength(line) <= MAX_WIRE_LINE_LENGTH
  }

  predicate AreWireLines(lines: seq<string>) {
    forall k | 0 <= k < |lines| :: IsWireLine(lines[k])
  }

  ghost predicate IsWire(text: string) {
    exists lines :: AreWireLines(lines) && Lines(lines) == text
  }

  // ---- Putting lines together

  lemma {:induction false} LinesConcat(a: seq<string>, b: seq<string>)
    ensures Lines(a + b) == Lines(a) + Lines(b)
  {
    if a == [] {
      assert a + b == b;
    } else {
      assert (a + b)[1..] == a[1..] + b;
      LinesConcat(a[1..], b);
    }
  }

  lemma WireConcat(a: string, b: string)
    requires IsWire(a) && IsWire(b)
    ensures IsWire(a + b)
  {
    hide IsWireLine, Lines;
    var x :| AreWireLines(x) && Lines(x) == a;
    var y :| AreWireLines(y) && Lines(y) == b;
    LinesConcat(x, y);
    assert AreWireLines(x + y);
  }

  lemma LinesAreWire(lines: seq<string>)
    requires AreWireLines(lines)
    ensures IsWire(Lines(lines))
  {
    hide AreWireLines, Lines;
  }

  lemma LineIsWire(line: string)
    requires IsWireLine(line)
    ensures IsWire(line + "\r\n") && IsWire("")
  {
    assert Lines([]) == "";
    assert Lines([line]) == line + "\r\n" + Lines([]) == line + "\r\n";
    LinesAreWire([]);
    LinesAreWire([line]);
    hide IsWireLine;
  }

  // ---- The scan

  /** The scan at a position, the line having started at another. */
  function Scans(text: string, start: nat, i: nat): bool
    requires start <= i <= |text|
    decreases |text| - i
  {
    if i == |text| then start == |text|
    else if text[i] == '\r' then
      i + 1 < |text| && text[i + 1] == '\n' && ByteLength(text[start..i]) <= MAX_WIRE_LINE_LENGTH
      && Scans(text, i + 2, i + 2)
    else text[i] != '\n' && Scans(text, start, i + 1)
  }

  lemma FirstLineIs(text: string, at: nat) returns (line: string)
    requires at < |text| && IsWire(text[at..])
    ensures IsWireLine(line)
    ensures var end := at + |line|;
      && end + 1 < |text| && text[at..end] == line && text[end] == '\r' && text[end + 1] == '\n'
      && IsWire(text[end + 2..])
  {
    var lines :| AreWireLines(lines) && Lines(lines) == text[at..];
    line := lines[0];
    var rest := Lines(lines[1..]);
    assert AreWireLines(lines[1..]);
    assert Lines(lines) == line + ("\r\n" + rest);
    hide Lines, IsWireLine;
    PieceAt(text, at, line, "\r\n" + rest);
    PieceAt(text, at + |line|, "\r\n", rest);
    LineEndAt(text, at + |line|);
  }

  lemma OneLineAt(text: string, at: nat, end: nat)
    requires at <= end <= |text| && IsOneLine(text[at..end])
    ensures forall k | at <= k < end :: text[k] != '\r' && text[k] != '\n'
  {
    forall k | at <= k < end
      ensures text[k] != '\r' && text[k] != '\n'
    {
      assert text[k] == text[at..end][k - at];
    }
  }

  lemma ScanStops(text: string, at: nat, i: nat)
    requires at <= i < |text| && IsOneLine(text[at..i]) && (text[i] == '\r' || text[i] == '\n')
    ensures IsWire(text[at..]) <==>
      && text[i] == '\r' && i + 1 < |text| && text[i + 1] == '\n'
      && ByteLength(text[at..i]) <= MAX_WIRE_LINE_LENGTH && IsWire(text[i + 2..])
  {
    hide IsWire, ByteLength;
    if text[i] == '\r' && i + 1 < |text| && text[i + 1] == '\n' {
      if ByteLength(text[at..i]) <= MAX_WIRE_LINE_LENGTH && IsWire(text[i + 2..]) {
        LineIsWire(text[at..i]);
        WireConcat(text[at..i] + "\r\n", text[i + 2..]);
        assert text[at..i] + "\r\n" + text[i + 2..] == text[at..];
      }
    }
    if IsWire(text[at..]) {
      var line := FirstLineIs(text, at);
      OneLineAt(text, at, i);
      OneLineAt(text, at, at + |line|);
    }
  }

  lemma {:induction false} ScanIsExact(text: string, at: nat, i: nat)
    requires at <= i <= |text| && IsOneLine(text[at..i])
    ensures Scans(text, at, i) <==> IsWire(text[at..])
    decreases |text| - i
  {
    hide IsWire, ByteLength;
    if i == |text| {
      if at == |text| {
        LineIsWireEmpty();
        assert text[at..] == "";
      } else if IsWire(text[at..]) {
        OneLineAt(text, at, i);
        var line := FirstLineIs(text, at);
      }
    } else if text[i] == '\r' || text[i] == '\n' {
      ScanStops(text, at, i);
      if i + 2 <= |text| {
        assert text[i + 2..i + 2] == "";
        ScanIsExact(text, i + 2, i + 2);
      }
    } else {
      assert text[at..i + 1] == text[at..i] + [text[i]];
      ScanIsExact(text, at, i + 1);
    }
  }

  lemma LineIsWireEmpty()
    ensures IsWire("")
  {
    LineIsWire("");
  }

  method ValidateWire(text: string) returns (valid: bool)
    ensures valid <==> IsWire(text)
  {
    hide IsWire, ByteLength;
    var lineStart, index := 0, 0;
    assert text[0..0] == "" && text[0..] == text;
    ScanIsExact(text, 0, 0);
    while index < |text|
      invariant lineStart <= index <= |text|
      invariant Scans(text, lineStart, index) == Scans(text, 0, 0)
    {
      if text[index] == '\r' {
        if index + 1 == |text| || text[index + 1] != '\n' {
          return false;
        }
        if ByteLength(text[lineStart..index]) > MAX_WIRE_LINE_LENGTH {
          return false;
        }
        index := index + 2;
        lineStart := index;
      } else if text[index] == '\n' {
        return false;
      } else {
        index := index + 1;
      }
    }
    valid := lineStart == |text|;
  }

  // ---- Headers

  lemma OneMoreToken(line: string, token: string)
    requires IsOneLine(line) && IsHeaderText(token)
    ensures IsOneLine(line + " " + token) && IsOneLine(" " + token)
    ensures ByteLength(line + " " + token) == ByteLength(line) + 1 + ByteLength(token)
    ensures ByteLength(" " + token) == 1 + ByteLength(token)
  {
    ByteLengthConcat(line + " ", token);
    ByteLengthConcat(line, " ");
    ByteLengthConcat(" ", token);
    AsciiByteLength(" ");
    hide ByteLength;
  }

  lemma {:induction false} FoldedIsWire(line: string, tokens: seq<string>)
    requires IsWireLine(line) && forall k | 0 <= k < |tokens| :: IsWritable(tokens[k])
    ensures IsWire(line + Folded(tokens, ByteLength(line)) + "\r\n")
    decreases |tokens|
  {
    hide ByteLength, IsWire, IsHeaderText, IsOneLine;
    if tokens == [] {
      LineIsWire(line);
      assert line + "" == line;
    } else {
      var token := tokens[0];
      OneMoreToken(line, token);
      if FitsOnLine(ByteLength(line), token) {
        FoldedIsWire(line + " " + token, tokens[1..]);
        FourJoined(line, " " + token, Folded(tokens[1..], ByteLength(line + " " + token)), "\r\n");
        assert line + (" " + token) == line + " " + token;
      } else {
        FoldedIsWire(" " + token, tokens[1..]);
        LineIsWire(line);
        var rest := Folded(tokens[1..], ByteLength(" " + token));
        WireConcat(line + "\r\n", " " + token + rest + "\r\n");
        BrokenLine(line, token, rest);
      }
    }
  }

  lemma FourJoined(a: string, b: string, c: string, d: string)
    ensures a + (b + c) + d == a + b + c + d
  {
  }

  lemma BrokenLine(line: string, token: string, rest: string)
    ensures line + "\r\n" + (" " + token + rest + "\r\n") == line + ("\r\n " + token + rest) + "\r\n"
  {
    assert "\r\n" + " " == "\r\n ";
  }

  function HeaderText(name: string, tokens: seq<string>): string {
    name + ":" + Folded(tokens, ByteLength(name) + 1) + "\r\n"
  }

  /** What the token writer appends passes, whenever it succeeds. */
  lemma TokenHeaderIsWire(name: string, tokens: seq<string>)
    requires IsOneLine(name) && ByteLength(name) < MAX_WIRE_LINE_LENGTH
    requires forall k | 0 <= k < |tokens| :: IsWritable(tokens[k])
    ensures IsWire(HeaderText(name, tokens))
  {
    hide *;
    NameIsLine(name);
    FoldedIsWire(name + ":", tokens);
    HeaderTextIs(name, tokens);
  }

  lemma NameIsLine(name: string)
    requires IsOneLine(name) && ByteLength(name) < MAX_WIRE_LINE_LENGTH
    ensures IsWireLine(name + ":") && ByteLength(name + ":") == ByteLength(name) + 1
  {
    ByteLengthConcat(name, ":");
    AsciiByteLength(":");
    hide ByteLength;
  }

  lemma HeaderTextIs(name: string, tokens: seq<string>)
    ensures HeaderText(name, tokens) == name + ":" + Folded(tokens, ByteLength(name) + 1) + "\r\n"
  {
  }

  /** So does every subject that can be written. */
  lemma SubjectIsWire(subject: string)
    requires IsHeaderText(subject)
    ensures IsWire(HeaderText("Subject", SubjectTokens(subject)))
  {
    AsciiByteLength("Subject");
    hide ByteLength, IsWire, Folded, IsWritable, SubjectTokens, IsHeaderText;
    TokensAreWritable(subject);
    TokenHeaderIsWire("Subject", SubjectTokens(subject));
  }

  // ---- Attachments

  function ParameterLines(parameters: seq<string>): seq<string> {
    if parameters == [] then []
    else [" " + parameters[0] + (if |parameters| > 1 then ";" else "")] + ParameterLines(parameters[1..])
  }

  function ParameterFields(name: string, value: string, parameter: string, text: string): seq<string> {
    [name + ": " + value + ";"] + ParameterLines(MimeParameter.Rendered(parameter, text))
  }

  datatype Attached = Attached(contentType: string, filename: string, bytes: seq<Byte>)

  /** The fields of an attachment carried in base64. */
  function Fields(a: Attached): seq<string> {
    ParameterFields("Content-Type", a.contentType, "name", a.filename)
    + ["Content-Transfer-Encoding: base64"]
    + ParameterFields("Content-Disposition", "attachment", "filename", a.filename)
  }

  predicate IsAttachable(a: Attached) {
    IsHeaderText(a.contentType) && ByteLength(a.contentType) <= 200 && |a.filename| + 1 <= MimeParameter.Pow10(23)
  }

  /** Starts with no dash and is a line. */
  predicate AreFields(lines: seq<string>) {
    AreWireLines(lines) && forall k | 0 <= k < |lines| :: IsFieldLine(lines[k])
  }

  /** The parameters of a header, if each of them fits on its line. */
  method WriteParameters(parameters: seq<string>) returns (lines: Option<seq<string>>)
    ensures lines.Some? <==> forall k | 0 <= k < |parameters| :: MimeParameter.FitsOnItsLine(parameters, k)
    ensures lines.Some? ==> lines.value == ParameterLines(parameters)
  {
    hide ByteLength;
    var written: seq<string> := [];
    assert parameters[0..] == parameters;
    for k := 0 to |parameters|
      invariant forall j | 0 <= j < k :: MimeParameter.FitsOnItsLine(parameters, j)
      invariant ParameterLines(parameters) == written + ParameterLines(parameters[k..])
    {
      ghost var rest := parameters[k..];
      assert rest[1..] == parameters[k + 1..];
      var last := k + 1 == |parameters|;
      if 1 + ByteLength(parameters[k]) + (if last then 0 else 1) > MimeParameter.RECOMMENDED_LENGTH {
        assert !MimeParameter.FitsOnItsLine(parameters, k);
        return None;
      }
      var line := " " + parameters[k] + if last then "" else ";";
      assert ParameterLines(rest) == [line] + ParameterLines(parameters[k + 1..]);
      written := written + [line];
    }
    lines := Some(written);
  }

  lemma {:induction false} ParameterLinesAreFields(parameters: seq<string>)
    requires forall k | 0 <= k < |parameters| :: IsOneLine(parameters[k]) && MimeParameter.FitsOnItsLine(parameters, k)
    ensures AreFields(ParameterLines(parameters))
    decreases |parameters|
  {
    hide ByteLength;
    if parameters != [] {
      var first, rest := parameters[0], parameters[1..];
      var end := if |parameters| > 1 then ";" else "";
      forall k | 0 <= k < |rest|
        ensures IsOneLine(rest[k]) && MimeParameter.FitsOnItsLine(rest, k)
      {
        assert MimeParameter.FitsOnItsLine(parameters, k + 1);
      }
      ParameterLinesAreFields(rest);
      assert MimeParameter.FitsOnItsLine(parameters, 0);
      ParameterLineIsField(first, end);
    }
  }

  lemma ParameterLineIsField(parameter: string, end: string)
    requires IsOneLine(parameter) && (end == "" || end == ";")
    requires 1 + ByteLength(parameter) + |end| <= MimeParameter.RECOMMENDED_LENGTH
    ensures IsWireLine(" " + parameter + end) && IsFieldLine(" " + parameter + end)
  {
    hide ByteLength;
    ParameterLineLength(parameter, end);
    var line := " " + parameter + end;
    assert forall k | 0 < k <= |parameter| :: line[k] == parameter[k - 1];
    assert end != "" ==> line[|parameter| + 1] == ';';
  }

  lemma ParameterLineLength(parameter: string, end: string)
    requires end == "" || end == ";"
    ensures ByteLength(" " + parameter + end) == 1 + ByteLength(parameter) + |end|
  {
    hide ByteLength;
    ByteLengthConcat(" " + parameter, end);
    ByteLengthConcat(" ", parameter);
    AsciiByteLength(" ");
    AsciiByteLength(end);
  }

  lemma LiteralIsField(name: string, value: string)
    requires AllAscii(name) && IsOneLine(name) && 0 < |name| <= 100 && name[0] != '-'
    requires IsHeaderText(value) && ByteLength(value) <= 200
    ensures AreFields([name + ": " + value + ";"])
  {
    var line := name + ": " + value + ";";
    ByteLengthConcat(name + ": " + value, ";");
    ByteLengthConcat(name + ": ", value);
    ByteLengthConcat(name, ": ");
    AsciiByteLength(name);
    AsciiByteLength(": ");
    AsciiByteLength(";");
    hide ByteLength;
    assert IsOneLine(line) && line[0] == name[0];
  }

  lemma FieldsConcat(a: seq<string>, b: seq<string>)
    requires AreFields(a) && AreFields(b)
    ensures AreFields(a + b)
  {
    hide IsWireLine, IsFieldLine;
  }

  lemma ParameterFieldsAreFields(name: string, value: string, parameter: string, text: string)
    requires AllAscii(name) && IsOneLine(name) && 0 < |name| <= 100 && name[0] != '-'
    requires IsHeaderText(value) && ByteLength(value) <= 200
    requires AllAscii(parameter) && MimeParameter.HoldsNoControl(parameter) && |parameter| <= 8
    requires |text| + 1 <= MimeParameter.Pow10(23)
    ensures AreFields(ParameterFields(name, value, parameter, text))
  {
    hide *;
    var parameters := MimeParameter.Rendered(parameter, text);
    LiteralIsField(name, value);
    MimeParameter.RenderedIsOneLine(parameter, text);
    MimeParameter.SegmentsFitOnLines(parameter, text);
    OneLinesAre(parameters);
    ParameterLinesAreFields(parameters);
    FieldsConcat([name + ": " + value + ";"], ParameterLines(parameters));
    ParameterFieldsAre(name, value, parameter, text);
  }

  lemma OneLinesAre(parameters: seq<string>)
    requires forall k | 0 <= k < |parameters| :: MimeParameter.HoldsNoControl(parameters[k])
    ensures forall k | 0 <= k < |parameters| :: IsOneLine(parameters[k])
  {
  }

  lemma ParameterFieldsAre(name: string, value: string, parameter: string, text: string)
    ensures ParameterFields(name, value, parameter, text) ==
      [name + ": " + value + ";"] + ParameterLines(MimeParameter.Rendered(parameter, text))
  {
  }

  lemma ContentTypeIs()
    ensures AllAscii("Content-Type") && IsOneLine("Content-Type")
    ensures |"Content-Type"| <= 100 && "Content-Type"[0] != '-'
  {
  }

  lemma ContentDispositionIs()
    ensures AllAscii("Content-Disposition") && IsOneLine("Content-Disposition")
    ensures |"Content-Disposition"| <= 100 && "Content-Disposition"[0] != '-'
  {
  }

  lemma ParameterNamesAre()
    ensures AllAscii("name") && MimeParameter.HoldsNoControl("name")
    ensures AllAscii("filename") && MimeParameter.HoldsNoControl("filename")
  {
  }

  lemma DispositionIs()
    ensures IsHeaderText("attachment") && ByteLength("attachment") <= 200
  {
    AsciiByteLength("attachment");
    hide ByteLength;
  }

  lemma EncodingLineIs()
    ensures AllAscii("Content-Transfer-Encoding: base64") && IsOneLine("Content-Transfer-Encoding: base64")
    ensures |"Content-Transfer-Encoding: base64"| <= 100 && IsFieldLine("Content-Transfer-Encoding: base64")
  {
  }

  lemma EncodingIsField()
    ensures AreFields(["Content-Transfer-Encoding: base64"])
  {
    EncodingLineIs();
    AsciiByteLength("Content-Transfer-Encoding: base64");
    hide ByteLength, AllAscii, IsOneLine;
  }

  /** Every line before an attachment's body is a field and short enough. */
  lemma FieldsAreFields(a: Attached)
    requires IsAttachable(a)
    ensures AreFields(Fields(a))
  {
    ContentTypeIs();
    ContentDispositionIs();
    ParameterNamesAre();
    DispositionIs();
    hide AreFields, ByteLength, IsHeaderText, AllAscii, IsOneLine, ParameterFields, MimeParameter.Pow10;
    ParameterFieldsAreFields("Content-Type", a.contentType, "name", a.filename);
    ParameterFieldsAreFields("Content-Disposition", "attachment", "filename", a.filename);
    EncodingIsField();
    var first := ParameterFields("Content-Type", a.contentType, "name", a.filename);
    FieldsConcat(first, ["Content-Transfer-Encoding: base64"]);
    FieldsConcat(first + ["Content-Transfer-Encoding: base64"],
                 ParameterFields("Content-Disposition", "attachment", "filename", a.filename));
  }

  lemma {:induction false} WrappedIsWire(encoded: string)
    requires IsWordText(encoded)
    ensures IsWire(Wrapped(encoded))
    decreases |encoded|
  {
    hide ByteLength, IsWire;
    if encoded == "" {
      LineIsWireEmpty();
    } else {
      var n := if |encoded| < LINE_LENGTH then |encoded| else LINE_LENGTH;
      WordTextIsLine(encoded[..n]);
      LineIsWire(encoded[..n]);
      WrappedIsWire(encoded[n..]);
      WireConcat(encoded[..n] + "\r\n", Wrapped(encoded[n..]));
    }
  }

  lemma WordTextIsLine(s: string)
    requires IsWordText(s) && |s| <= LINE_LENGTH
    ensures IsWireLine(s)
  {
    AsciiByteLength(s);
    hide ByteLength;
  }

  /** An attachment in base64, whatever its bytes and its name, passes. */
  lemma AttachmentIsWire(a: Attached)
    requires IsAttachable(a)
    ensures var part := AttachmentPart(Fields(a), a.bytes); part != "" && IsWire(part) && IsAttachment(part)
  {
    hide IsWire, Lines, Wrapped, Encode, Fields, IsWireLine, IsFieldLine, IsWordText, IsAttachable;
    FieldsAreFields(a);
    LinesAreWire(Fields(a));
    LineIsWireShort();
    EncodedIsWordText(a.bytes);
    WrappedIsWire(Encode(a.bytes));
    WireConcat(Lines(Fields(a)), "\r\n");
    WireConcat(Lines(Fields(a)) + "\r\n", if a.bytes == [] then "\r\n" else Wrapped(Encode(a.bytes)));
    assert IsAttachmentPart(AttachmentPart(Fields(a), a.bytes), Fields(a), a.bytes);
  }

  lemma LineIsWireShort()
    ensures IsWire("\r\n")
  {
    LineIsWire("");
    assert "" + "\r\n" == "\r\n";
  }

  // ---- The body and the whole message

  lemma WireEnds(text: string)
    requires IsWire(text) && text != ""
    ensures EndsLine(text)
    ensures WithoutLineEnd(text) + "\r\n" == text
  {
    var lines :| AreWireLines(lines) && Lines(lines) == text;
    hide AreWireLines;
    assert lines != [];
    hide Lines;
    LinesEnd(lines);
  }

  lemma {:induction false} LinesEnd(lines: seq<string>)
    requires lines != []
    ensures EndsLine(Lines(lines))
  {
    if |lines| > 1 {
      LinesEnd(lines[1..]);
    } else {
      assert Lines(lines) == lines[0] + "\r\n" + Lines([]);
    }
  }

  lemma DelimiterIsWire(boundary: string)
    requires IsOneLine(boundary) && AllAscii(boundary) && |boundary| <= 70
    ensures IsWire(Delimiter(boundary) + "\r\n") && IsWire(Delimiter(boundary) + "--" + "\r\n")
  {
    AsciiByteLength(Delimiter(boundary));
    AsciiByteLength(Delimiter(boundary) + "--");
    hide ByteLength, IsWire;
    LineIsWire(Delimiter(boundary));
    LineIsWire(Delimiter(boundary) + "--");
  }

  lemma {:induction false} JoinedIsWire(contents: seq<string>, boundary: string)
    requires IsOneLine(boundary) && AllAscii(boundary) && |boundary| <= 70
    requires forall k | 0 <= k < |contents| :: contents[k] != "" && IsWire(contents[k])
    ensures IsWire(Joined(WithoutLineEnds(contents), Delimiter(boundary)))
    decreases |contents|
  {
    hide IsWire, Delimiter, WithoutLineEnd, Joined, WithoutLineEnds, IsOneLine;
    if contents == [] {
      NothingJoinedIsWire(boundary);
    } else {
      JoinedIsWire(contents[1..], boundary);
      OneMoreIsWire(contents, boundary);
    }
  }

  lemma NothingJoinedIsWire(boundary: string)
    requires IsOneLine(boundary) && AllAscii(boundary) && |boundary| <= 70
    ensures IsWire(Joined(WithoutLineEnds([]), Delimiter(boundary)))
  {
    DelimiterIsWire(boundary);
    hide IsWire, Delimiter;
  }

  lemma OneMoreIsWire(contents: seq<string>, boundary: string)
    requires IsOneLine(boundary) && AllAscii(boundary) && |boundary| <= 70
    requires contents != [] && contents[0] != "" && IsWire(contents[0])
    requires IsWire(Joined(WithoutLineEnds(contents[1..]), Delimiter(boundary)))
    ensures IsWire(Joined(WithoutLineEnds(contents), Delimiter(boundary)))
  {
    hide *;
    var parts, delimiter := WithoutLineEnds(contents), Delimiter(boundary);
    DelimiterIsWire(boundary);
    WithoutLineEndsUnfold(contents);
    WireEnds(contents[0]);
    var rest := Joined(parts[1..], delimiter);
    WireConcat(delimiter + "\r\n", contents[0]);
    WireConcat(delimiter + "\r\n" + contents[0], rest);
    JoinedUnfolds(parts, delimiter);
    assert delimiter + "\r\n" + (parts[0] + "\r\n") + rest == delimiter + ("\r\n" + (parts[0] + ("\r\n" + rest)));
  }

  datatype HeaderField = HeaderField(name: string, tokens: seq<string>)

  predicate IsWrittenField(h: HeaderField) {
    && IsOneLine(h.name) && ByteLength(h.name) < MAX_WIRE_LINE_LENGTH
    && forall k | 0 <= k < |h.tokens| :: IsWritable(h.tokens[k])
  }

  function HeaderFields(headers: seq<HeaderField>): string {
    if headers == [] then "" else HeaderText(headers[0].name, headers[0].tokens) + HeaderFields(headers[1..])
  }

  function BoundaryFields(boundary: string): seq<string> {
    ["Content-Type: multipart/mixed;", " boundary=\"" + boundary + "\""]
  }

  function AttachmentTexts(attachments: seq<Attached>): seq<string> {
    if attachments == [] then []
    else [AttachmentPart(Fields(attachments[0]), attachments[0].bytes)] + AttachmentTexts(attachments[1..])
  }

  /** Headers, then a text part and attachments in base64 as a mixed multipart. */
  function Message(headers: seq<HeaderField>, boundary: string, text: string, attachments: seq<Attached>): string {
    HeaderFields(headers) + Lines(BoundaryFields(boundary)) + "\r\n"
    + Joined(WithoutLineEnds([text] + AttachmentTexts(attachments)), Delimiter(boundary))
  }

  lemma {:induction false} HeadersAreWire(headers: seq<HeaderField>)
    requires forall k | 0 <= k < |headers| :: IsWrittenField(headers[k])
    ensures IsWire(HeaderFields(headers))
    decreases |headers|
  {
    hide IsWire, HeaderText, ByteLength, IsWritable;
    if headers == [] {
      LineIsWireEmpty();
    } else {
      assert IsWrittenField(headers[0]);
      TokenHeaderIsWire(headers[0].name, headers[0].tokens);
      HeadersAreWire(headers[1..]);
      WireConcat(HeaderText(headers[0].name, headers[0].tokens), HeaderFields(headers[1..]));
    }
  }

  lemma BoundaryLineIs(boundary: string)
    requires IsOneLine(boundary) && AllAscii(boundary)
    ensures IsOneLine(" boundary=\"" + boundary + "\"") && AllAscii(" boundary=\"" + boundary + "\"")
  {
    var prefix := " boundary=\"";
    assert IsOneLine(prefix) && AllAscii(prefix);
    assert IsOneLine(prefix + boundary) && AllAscii(prefix + boundary);
  }

  lemma MixedLineIs()
    ensures AllAscii("Content-Type: multipart/mixed;") && IsOneLine("Content-Type: multipart/mixed;")
    ensures |"Content-Type: multipart/mixed;"| <= 100
  {
  }

  lemma BoundaryIsWire(boundary: string)
    requires IsOneLine(boundary) && AllAscii(boundary) && |boundary| <= 70
    ensures IsWire(Lines(BoundaryFields(boundary)))
  {
    BoundaryLineIs(boundary);
    MixedLineIs();
    var line := " boundary=\"" + boundary + "\"";
    AsciiByteLength("Content-Type: multipart/mixed;");
    AsciiByteLength(line);
    hide ByteLength, Lines, IsWire, IsOneLine, AllAscii;
    LinesAreWire(["Content-Type: multipart/mixed;", line]);
  }

  lemma {:induction false} PartsAreWire(attachments: seq<Attached>)
    requires forall k | 0 <= k < |attachments| :: IsAttachable(attachments[k])
    ensures forall k | 0 <= k < |AttachmentTexts(attachments)| ::
      && AttachmentTexts(attachments)[k] != ""
      && IsWire(AttachmentTexts(attachments)[k]) && IsAttachment(AttachmentTexts(attachments)[k])
    decreases |attachments|
  {
    hide IsWire, IsAttachable, IsAttachment, Fields, AttachmentPart;
    if attachments != [] {
      AttachmentIsWire(attachments[0]);
      PartsAreWire(attachments[1..]);
    }
  }

  /** A whole message passes the check that ends its rendering, if its headers were
      written by the token writer and its text part is lines: no subject, identifier,
      file name or attachment can make it fail. */
  lemma MessageIsWire(headers: seq<HeaderField>, boundary: string, text: string, attachments: seq<Attached>)
    requires forall k | 0 <= k < |headers| :: IsWrittenField(headers[k])
    requires IsOneLine(boundary) && AllAscii(boundary) && |boundary| <= 70
    requires text != "" && IsWire(text) && forall k | 0 <= k < |attachments| :: IsAttachable(attachments[k])
    ensures IsWire(Message(headers, boundary, text, attachments))
  {
    hide IsWire, HeaderFields, Lines, BoundaryFields, Joined, WithoutLineEnds, AttachmentTexts, IsWrittenField,
         IsAttachable;
    var body := Joined(WithoutLineEnds([text] + AttachmentTexts(attachments)), Delimiter(boundary));
    HeadersAreWire(headers);
    BoundaryIsWire(boundary);
    LineIsWireShort();
    PartsAreWire(attachments);
    var contents := [text] + AttachmentTexts(attachments);
    assert forall k | 0 < k < |contents| :: contents[k] == AttachmentTexts(attachments)[k - 1];
    JoinedIsWire(contents, boundary);
    WireConcat(HeaderFields(headers), Lines(BoundaryFields(boundary)));
    WireConcat(HeaderFields(headers) + Lines(BoundaryFields(boundary)), "\r\n");
    WireConcat(HeaderFields(headers) + Lines(BoundaryFields(boundary)) + "\r\n", body);
  }

  /** And where its parts are walked they are the written ones, if and only if the
      text part holds no delimiter line: no attachment of any name can spoil it. */
  lemma MessageIsRead(headers: seq<HeaderField>, boundary: string, text: string, attachments: seq<Attached>,
                      read: string -> Preflight.Headers)
    requires IsOneLine(boundary) && forall k | 0 <= k < |attachments| :: IsAttachable(attachments[k])
    requires read(Message(headers, boundary, text, attachments)) == Composite(BodyStart(headers, boundary), boundary)
    ensures
      Children(Message(headers, boundary, text, attachments), read)
        == WithoutLineEnds([text] + AttachmentTexts(attachments))
      <==> !HasDelimiterLine(WithoutLineEnd(text), Delimiter(boundary))
  {
    hide *;
    PartsAreWire(attachments);
    MessageSplits(headers, boundary, text, attachments);
    AttachmentsAreRead(Message(headers, boundary, text, attachments), BodyStart(headers, boundary), boundary, text,
                       AttachmentTexts(attachments), read);
  }

  function BodyStart(headers: seq<HeaderField>, boundary: string): nat {
    |HeaderFields(headers) + Lines(BoundaryFields(boundary)) + "\r\n"|
  }

  lemma MessageSplits(headers: seq<HeaderField>, boundary: string, text: string, attachments: seq<Attached>)
    ensures var (message, at) := (Message(headers, boundary, text, attachments), BodyStart(headers, boundary));
      && at <= |message|
      && message[at..] == Joined(WithoutLineEnds([text] + AttachmentTexts(attachments)), Delimiter(boundary))
  {
    hide HeaderFields, Lines, Joined, AttachmentTexts, WithoutLineEnds;
  }
}
