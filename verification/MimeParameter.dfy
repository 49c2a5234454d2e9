// MIME parameters (crates/notm-mail/src/rfc5322.rs, `render_mime_parameter`):
// a plain quoted value, or percent-encoded segments as in sections 3 and 4 of
// RFC 2231.
module MimeParameter {
  import opened MailText
  import opened Utf8

  const SEGMENT_LENGTH := 42
  const RECOMMENDED_LENGTH := 78

  // ---- Percent encoding

  function HexDigit(n: nat): (c: char)
    requires n < 16
  {
    if n < 10 then ('0' as int + n) as char else ('A' as int + n - 10) as char
  }

  predicate IsUnreserved(b: Byte) {
    var c := b as int as char;
    IsAlphanumeric(c) || c == '-' || c == '.' || c == '_' || c == '~'
  }

  function Percent(b: Byte): string {
    if IsUnreserved(b) then [b as int as char] else ['%', HexDigit(b as int / 16), HexDigit(b as int % 16)]
  }

  function PercentEncoded(bytes: seq<Byte>): string {
    if bytes == [] then "" else Percent(bytes[0]) + PercentEncoded(bytes[1..])
  }

  /** A reader that takes nothing for itself but letters, digits and `-._~`. */
  function Unpercented(s: string): Option<seq<Byte>>
    decreases |s|
  {
    if s == "" then Some([])
    else if s[0] == '%' then
      if |s| < 3 || !IsHexDigit(s[1]) || !IsHexDigit(s[2]) then None
      else
        var rest := Unpercented(s[3..]);
        if rest.None? then None else Some([HexValue(s[1]) * 16 + HexValue(s[2])] + rest.value)
    else if !('0' <= s[0] <= '9' || 'A' <= s[0] <= 'Z' || 'a' <= s[0] <= 'z' || s[0] in "-._~") then None
    else
      var rest := Unpercented(s[1..]);
      if rest.None? then None else Some([s[0] as int] + rest.value)
  }

  lemma ByteReadsBack(b: Byte, rest: string)
    requires Unpercented(rest).Some?
    ensures Unpercented(Percent(b) + rest) == Some([b] + Unpercented(rest).value)
  {
    hide Unpercented;
    if IsUnreserved(b) {
      PlainByteReadsBack(b, rest);
    } else {
      DigitsReadBack(b);
      DigitsAreRead(HexDigit(b as int / 16), HexDigit(b as int % 16), rest);
      hide HexDigit, HexValue, IsHexDigit;
    }
  }

  lemma PlainByteReadsBack(b: Byte, rest: string)
    requires IsUnreserved(b) && Unpercented(rest).Some?
    ensures Unpercented([b as int as char] + rest) == Some([b] + Unpercented(rest).value)
  {
    var s := [b as int as char] + rest;
    assert s[1..] == rest;
  }

  lemma DigitsAreRead(high: char, low: char, rest: string)
    requires IsHexDigit(high) && IsHexDigit(low) && Unpercented(rest).Some?
    ensures Unpercented(['%', high, low] + rest) ==
      Some([(HexValue(high) * 16 + HexValue(low)) as Byte] + Unpercented(rest).value)
  {
    hide HexValue, IsHexDigit;
    var s := ['%', high, low] + rest;
    assert s[3..] == rest && s[1] == high && s[2] == low;
  }

  lemma DigitsReadBack(b: Byte)
    ensures IsHexDigit(HexDigit(b as int / 16)) && IsHexDigit(HexDigit(b as int % 16))
    ensures HexValue(HexDigit(b as int / 16)) == b as int / 16 && HexValue(HexDigit(b as int % 16)) == b as int % 16
    ensures b as int / 16 * 16 + b as int % 16 == b as int
  {
  }

  lemma {:induction false} PercentsReadBack(bytes: seq<Byte>)
    ensures Unpercented(PercentEncoded(bytes)) == Some(bytes)
  {
    if bytes != [] {
      hide Percent, Unpercented;
      NothingReads();
      PercentsReadBack(bytes[1..]);
      ByteReadsBack(bytes[0], PercentEncoded(bytes[1..]));
      assert [bytes[0]] + bytes[1..] == bytes;
    } else {
      NothingReads();
    }
  }

  lemma NothingReads()
    ensures Unpercented("") == Some([])
  {
  }

  lemma {:induction false} PercentConcat(a: seq<Byte>, b: seq<Byte>)
    ensures PercentEncoded(a + b) == PercentEncoded(a) + PercentEncoded(b)
  {
    hide Percent, PercentEncoded;
    if a == [] {
      NothingIsEncoded();
      assert a + b == b;
    } else {
      PercentConcat(a[1..], b);
      PercentUnfolds(a);
      PercentUnfolds(a + b);
      assert (a + b)[1..] == a[1..] + b;
      Regroup(Percent(a[0]), PercentEncoded(a[1..]), PercentEncoded(b));
    }
  }

  lemma NothingIsEncoded()
    ensures PercentEncoded([]) == "" && forall s: string :: "" + s == s
  {
  }

  lemma Regroup(a: string, b: string, c: string)
    ensures a + (b + c) == a + b + c
  {
  }

  lemma PercentUnfolds(bytes: seq<Byte>)
    requires bytes != []
    ensures PercentEncoded(bytes) == Percent(bytes[0]) + PercentEncoded(bytes[1..])
  {
  }

  // ---- Segments

  /** One character, percent-encoded. */
  function Atom(c: char): string {
    PercentEncoded(CharUtf8(c))
  }

  function Atoms(value: string): seq<string> {
    if value == "" then [] else [Atom(value[0])] + Atoms(value[1..])
  }

  /** The segments of the atoms left, the first of which has begun. */
  function Segments(atoms: seq<string>, current: string): seq<string> {
    if atoms == [] then [current]
    else if current != "" && |current| + |atoms[0]| > SEGMENT_LENGTH then [current] + Segments(atoms[1..], atoms[0])
    else Segments(atoms[1..], current + atoms[0])
  }

  lemma {:induction false} AtomsJoin(value: string)
    ensures Concatenated(Atoms(value)) == PercentEncoded(ToUtf8(value))
    ensures |Atoms(value)| == |value|
  {
    if value != "" {
      hide CharUtf8, Percent;
      AtomsJoin(value[1..]);
      PercentConcat(CharUtf8(value[0]), ToUtf8(value[1..]));
      assert Atoms(value)[1..] == Atoms(value[1..]);
    }
  }

  lemma {:induction false} EncodedIsShort(bytes: seq<Byte>)
    ensures |PercentEncoded(bytes)| <= 3 * |bytes|
  {
    if bytes != [] {
      EncodedIsShort(bytes[1..]);
    }
  }

  lemma {:induction false} AtomsAreShort(value: string)
    ensures forall k | 0 <= k < |Atoms(value)| :: |Atoms(value)[k]| <= 12
  {
    if value != "" {
      EncodedIsShort(CharUtf8(value[0]));
      AtomsAreShort(value[1..]);
      hide PercentEncoded, CharUtf8;
    }
  }

  predicate AreShort(segments: seq<string>) {
    forall k | 0 <= k < |segments| :: |segments[k]| <= SEGMENT_LENGTH
  }

  function Flattened(groups: seq<seq<string>>): seq<string> {
    if groups == [] then [] else groups[0] + Flattened(groups[1..])
  }

  /** Each segment is the atoms of its group, and within the limit. */
  predicate AreJoined(segments: seq<string>, groups: seq<seq<string>>) {
    && |segments| == |groups| && AreShort(segments)
    && forall k | 0 <= k < |groups| :: segments[k] == Concatenated(groups[k])
  }

  /** The segment before a group could not have held its first atom. */
  predicate WasFull(groups: seq<seq<string>>, k: nat)
    requires 0 < k < |groups|
  {
    groups[k] != [] && |Concatenated(groups[k - 1])| + |groups[k][0]| > SEGMENT_LENGTH
  }

  predicate AreFilled(groups: seq<seq<string>>) {
    forall k | 0 < k < |groups| :: WasFull(groups, k)
  }

  lemma GroupStep(group: seq<string>, segments: seq<string>, groups: seq<seq<string>>)
    requires |Concatenated(group)| <= SEGMENT_LENGTH && AreJoined(segments, groups)
    ensures AreJoined([Concatenated(group)] + segments, [group] + groups)
    ensures Concatenated([Concatenated(group)] + segments) == Concatenated(group) + Concatenated(segments)
    ensures Flattened([group] + groups) == group + Flattened(groups)
  {
    var segment := Concatenated(group);
    assert ([segment] + segments)[1..] == segments && ([group] + groups)[1..] == groups;
    hide Concatenated, Flattened;
  }

  lemma FilledStep(group: seq<string>, groups: seq<seq<string>>)
    requires AreFilled(groups) && groups != [] && groups[0] != []
    requires |Concatenated(group)| + |groups[0][0]| > SEGMENT_LENGTH
    ensures AreFilled([group] + groups)
  {
    hide Concatenated;
    var all := [group] + groups;
    forall k | 0 < k < |all|
      ensures WasFull(all, k)
    {
      if k > 1 {
        assert WasFull(groups, k - 1);
      }
    }
  }

  lemma {:induction false} ConcatenatedEnd(atoms: seq<string>, atom: string)
    ensures Concatenated(atoms + [atom]) == Concatenated(atoms) + atom
  {
    if atoms == [] {
      OneGroup([]);
      assert [] + [atom] == [atom] && Concatenated([atom]) == atom + Concatenated([]);
    } else {
      assert (atoms + [atom])[1..] == atoms[1..] + [atom];
      ConcatenatedEnd(atoms[1..], atom);
    }
  }

  lemma OneGroup(group: seq<string>)
    ensures Concatenated([]) == "" && Flattened([]) == [] && AreJoined([], []) && AreFilled([group])
  {
  }

  /** Segments hold whole atoms, one after the other, each as many as fit. */
  lemma {:induction false} SegmentsCover(atoms: seq<string>, before: seq<string>) returns (groups: seq<seq<string>>)
    requires |Concatenated(before)| <= SEGMENT_LENGTH && forall k | 0 <= k < |atoms| :: |atoms[k]| <= 12
    ensures var segments := Segments(atoms, Concatenated(before));
      && AreJoined(segments, groups) && Flattened(groups) == before + atoms && AreFilled(groups)
      && Concatenated(segments) == Concatenated(before) + Concatenated(atoms)
    ensures 0 < |groups| <= 1 + |atoms| && before <= groups[0]
    decreases |atoms|
  {
    hide AreJoined, AreFilled, Concatenated, Flattened;
    OneGroup(before);
    var current := Concatenated(before);
    if atoms == [] {
      groups := [before];
      GroupStep(before, [], []);
      assert [current] + [] == [current] && [before] + [] == [before] && current + "" == current;
    } else {
      var atom, rest := atoms[0], atoms[1..];
      AtomsUnfold(before, atoms);
      ConcatenatedEnd([], atom);
      assert [] + [atom] == [atom] && "" + atom == atom;
      if current != "" && |current| + |atom| > SEGMENT_LENGTH {
        var others := SegmentsCover(rest, [atom]);
        GroupStep(before, Segments(rest, atom), others);
        FilledStep(before, others);
        groups := [before] + others;
      } else {
        ConcatenatedEnd(before, atom);
        groups := SegmentsCover(rest, before + [atom]);
        assert current + atom + Concatenated(rest) == current + (atom + Concatenated(rest));
      }
    }
  }

  lemma AtomsUnfold(before: seq<string>, atoms: seq<string>)
    requires atoms != []
    ensures Concatenated(atoms) == atoms[0] + Concatenated(atoms[1..])
    ensures [atoms[0]] + atoms[1..] == atoms
    ensures before + atoms == before + ([atoms[0]] + atoms[1..])
    ensures before + atoms == before + [atoms[0]] + atoms[1..]
  {
  }

  lemma ValueSegments(value: string)
    ensures var segments := Segments(Atoms(value), "");
      && AreShort(segments) && 0 < |segments| <= 1 + |value|
      && Concatenated(segments) == Concatenated(Atoms(value))
  {
    hide Segments, AreShort, Atoms;
    AtomsAreShort(value);
    AtomsJoin(value);
    OneGroup([]);
    var groups := SegmentsCover(Atoms(value), []);
    assert "" + Concatenated(Atoms(value)) == Concatenated(Atoms(value));
  }

  // ---- Rendering

  predicate IsPlain(value: string) {
    AllAscii(value) && |value| <= SEGMENT_LENGTH
    && forall k | 0 <= k < |value| :: !IsControl(value[k]) && value[k] != '"' && value[k] != '\\' && value[k] != ';'
  }

  function Decimal(n: nat): (s: string)
    ensures s != "" && forall k | 0 <= k < |s| :: '0' <= s[k] <= '9'
  {
    (if n < 10 then "" else Decimal(n / 10)) + [HexDigit(n % 10)]
  }

  function Label(name: string, index: nat): string {
    if index == 0 then name + "*0*=utf-8''" else name + "*" + Decimal(index) + "*="
  }

  function Labelled(name: string, segments: seq<string>, index: nat): seq<string> {
    if segments == [] then [] else [Label(name, index) + segments[0]] + Labelled(name, segments[1..], index + 1)
  }

  function Rendered(name: string, value: string): seq<string> {
    if IsPlain(value) then [name + "=\"" + value + "\""] else Labelled(name, Segments(Atoms(value), ""), 0)
  }

  method RenderMimeParameter(name: string, value: string) returns (parameters: seq<string>)
    ensures parameters == Rendered(name, value)
  {
    hide Atom, Label;
    if IsPlain(value) {
      return [name + "=\"" + value + "\""];
    }
    var atoms := Atoms(value);
    var segments: seq<string> := [];
    var current := "";
    assert atoms[0..] == atoms;
    for k := 0 to |atoms|
      invariant Segments(atoms, "") == segments + Segments(atoms[k..], current)
    {
      SegmentsUnfold(atoms, k, current);
      if current != "" && |current| + |atoms[k]| > SEGMENT_LENGTH {
        PushSegment(segments, current, Segments(atoms[k + 1..], atoms[k]));
        segments := segments + [current];
        current := "";
      }
      assert "" + atoms[k] == atoms[k];
      current := current + atoms[k];
    }
    assert atoms[|atoms|..] == [];
    segments := segments + [current];
    parameters := [];
    assert segments[0..] == segments;
    for k := 0 to |segments|
      invariant Labelled(name, segments, 0) == parameters + Labelled(name, segments[k..], k)
    {
      assert segments[k..][1..] == segments[k + 1..];
      PushSegment(parameters, Label(name, k) + segments[k], Labelled(name, segments[k + 1..], k + 1));
      parameters := parameters + [Label(name, k) + segments[k]];
    }
    assert segments[|segments|..] == [];
  }

  lemma SegmentsUnfold(atoms: seq<string>, k: nat, current: string)
    requires k < |atoms|
    ensures Segments(atoms[k..], current) ==
      if current != "" && |current| + |atoms[k]| > SEGMENT_LENGTH then [current] + Segments(atoms[k + 1..], atoms[k])
      else Segments(atoms[k + 1..], current + atoms[k])
  {
    assert atoms[k..][1..] == atoms[k + 1..];
  }

  lemma PushSegment(segments: seq<string>, segment: string, rest: seq<string>)
    ensures segments + ([segment] + rest) == segments + [segment] + rest
  {
  }

  // ---- Reading

  predicate StartsWith(s: string, prefix: string) {
    |prefix| <= |s| && s[..|prefix|] == prefix
  }

  /** Sections 3 and 4 of RFC 2231: numbered segments, joined before decoding. */
  function ReadSegments(name: string, parameters: seq<string>, index: nat): Option<string> {
    if parameters == [] then Some("")
    else if !StartsWith(parameters[0], Label(name, index)) then None
    else
      var rest := ReadSegments(name, parameters[1..], index + 1);
      if rest.None? then None else Some(parameters[0][|Label(name, index)|..] + rest.value)
  }

  /** A quoted-string to its closing quote, a backslash taking the next character;
      a bare semicolon would end the parameter for some readers. */
  function Unquoted(s: string): Option<string>
    decreases |s|
  {
    if s == "" then None
    else if s[0] == '"' then if |s| == 1 then Some("") else None
    else if s[0] == '\\' then
      var rest := if |s| < 2 then None else Unquoted(s[2..]);
      if rest.None? then None else Some([s[1]] + rest.value)
    else if s[0] == ';' || !IsAscii(s[0]) || IsControl(s[0]) then None
    else
      var rest := Unquoted(s[1..]);
      if rest.None? then None else Some([s[0]] + rest.value)
  }

  function ReadParameter(name: string, parameters: seq<string>): Option<string> {
    if |parameters| == 1 && StartsWith(parameters[0], name + "=\"") then Unquoted(parameters[0][|name| + 2..])
    else
      var text := ReadSegments(name, parameters, 0);
      if text.None? then None
      else
        var bytes := Unpercented(text.value);
        if bytes.None? then None else FromUtf8(bytes.value)
  }

  lemma {:induction false} LabelsReadBack(name: string, segments: seq<string>, index: nat)
    ensures ReadSegments(name, Labelled(name, segments, index), index) == Some(Concatenated(segments))
  {
    hide Label;
    if segments != [] {
      LabelsReadBack(name, segments[1..], index + 1);
      var first := Label(name, index) + segments[0];
      assert first[..|Label(name, index)|] == Label(name, index) && first[|Label(name, index)|..] == segments[0];
      assert Labelled(name, segments, index)[1..] == Labelled(name, segments[1..], index + 1);
    }
  }

  lemma {:induction false} PlainReadsBack(value: string)
    requires IsPlain(value)
    ensures Unquoted(value + "\"") == Some(value)
    decreases |value|
  {
    if value != "" {
      PlainReadsBack(value[1..]);
      assert (value + "\"")[1..] == value[1..] + "\"";
      assert [value[0]] + value[1..] == value;
    }
  }

  /** A value stands in quotes exactly if it is short ASCII that needs no escaping
      there. */
  lemma PlainIsQuoted(name: string, value: string)
    ensures Rendered(name, value) == [name + "=\"" + value + "\""] <==>
      |value| <= 42 && forall k | 0 <= k < |value| :: ' ' <= value[k] <= '~' && value[k] !in "\"\\;"
  {
    if !IsPlain(value) {
      var segments := Segments(Atoms(value), "");
      ValueSegments(value);
      var first := Labelled(name, segments, 0)[0];
      assert first[|name|] == '*';
      assert (name + "=\"" + value + "\"")[|name|] == '=';
      hide Segments, Atoms;
    }
  }

  /** Letters, digits and `-._~` are written as they are, other bytes as two
      hexadecimal digits. */
  lemma UnreservedIsKept(b: Byte)
    ensures var c := b as int as char;
      if IsAlphanumeric(c) || c in "-._~" then Percent(b) == [c]
      else |Percent(b)| == 3 && Percent(b)[0] == '%' && forall k | 1 <= k < 3 ::
             '0' <= Percent(b)[k] <= '9' || 'A' <= Percent(b)[k] <= 'F'
  {
  }

  /** Every file name reads back as itself, plain or in segments. */
  lemma ParameterReadsBack(name: string, value: string)
    ensures ReadParameter(name, Rendered(name, value)) == Some(value)
  {
    if IsPlain(value) {
      hide IsPlain, Unquoted;
      var plain := name + "=\"" + value + "\"";
      assert plain[..|name| + 2] == name + "=\"" && plain[|name| + 2..] == value + "\"";
      PlainReadsBack(value);
    } else {
      hide *;
      SegmentsReadBack(name, value);
    }
  }

  lemma SegmentsReadBack(name: string, value: string)
    requires !IsPlain(value)
    ensures ReadParameter(name, Rendered(name, value)) == Some(value)
  {
    hide IsPlain, Segments, Atoms, PercentEncoded, Unpercented, ToUtf8, FromUtf8, Concatenated;
    var segments := Segments(Atoms(value), "");
    ValueSegments(value);
    LabelsReadBack(name, segments, 0);
    AtomsJoin(value);
    PercentsReadBack(ToUtf8(value));
    ReadingUndoesWriting(value);
    var first := Labelled(name, segments, 0)[0];
    assert first[|name|] == '*';
    DiffersAt(first, name + "=\"", |name|);
  }

  lemma DiffersAt(s: string, prefix: string, i: nat)
    requires i < |s| && i < |prefix| && s[i] != prefix[i]
    ensures !StartsWith(s, prefix)
  {
  }

  // ---- The line limit

  function Pow10(k: nat): nat {
    if k == 0 then 1 else 10 * Pow10(k - 1)
  }

  lemma {:induction false} DecimalIsShort(n: nat, k: nat)
    requires k > 0 && n < Pow10(k)
    ensures |Decimal(n)| <= k
  {
    if n >= 10 {
      assert k > 1 by {
        assert Pow10(1) == 10;
      }
      DecimalIsShort(n / 10, k - 1);
    }
  }

  lemma {:induction false} EncodedIsGraphic(bytes: seq<Byte>)
    ensures AllGraphic(PercentEncoded(bytes))
  {
    if bytes != [] {
      EncodedIsGraphic(bytes[1..]);
    }
  }

  lemma {:induction false} PiecesAreGraphic(segments: seq<string>)
    requires AllGraphic(Concatenated(segments))
    ensures forall k | 0 <= k < |segments| :: AllGraphic(segments[k])
  {
    if segments != [] {
      var first, rest := segments[0], Concatenated(segments[1..]);
      assert forall k | 0 <= k < |first| :: first[k] == (first + rest)[k];
      assert forall k | 0 <= k < |rest| :: rest[k] == (first + rest)[|first| + k];
      PiecesAreGraphic(segments[1..]);
    }
  }

  lemma SegmentsAreGraphic(value: string)
    ensures forall k | 0 <= k < |Segments(Atoms(value), "")| ::
      AllGraphic(Segments(Atoms(value), "")[k]) && AllAscii(Segments(Atoms(value), "")[k])
  {
    hide Segments, Atoms, Concatenated, PercentEncoded, ToUtf8, AreShort;
    ValueSegments(value);
    AtomsJoin(value);
    EncodedIsGraphic(ToUtf8(value));
    PiecesAreGraphic(Segments(Atoms(value), ""));
  }

  /** What the header writer demands of every segment, with its space and `;`. */
  predicate FitsOnItsLine(parameters: seq<string>, k: nat)
    requires k < |parameters|
  {
    1 + ByteLength(parameters[k]) + (if k + 1 != |parameters| then 1 else 0) <= RECOMMENDED_LENGTH
  }

  lemma AsciiConcat(a: string, b: string)
    requires AllAscii(a) && AllAscii(b)
    ensures AllAscii(a + b)
  {
  }

  lemma LiteralsAreAscii()
    ensures AllAscii("*0*=utf-8''") && AllAscii("*") && AllAscii("*=")
  {
  }

  lemma DigitsAreAscii(n: nat)
    ensures AllAscii(Decimal(n))
  {
  }

  lemma LabelIsShort(name: string, index: nat)
    requires AllAscii(name) && |name| <= 8 && index < Pow10(23)
    ensures AllAscii(Label(name, index)) && |Label(name, index)| <= 34
  {
    hide Decimal, Pow10, AllAscii;
    DecimalIsShort(index, 23);
    LiteralsAreAscii();
    DigitsAreAscii(index);
    AsciiConcat(name, "*0*=utf-8''");
    AsciiConcat(name, "*");
    AsciiConcat(name + "*", Decimal(index));
    AsciiConcat(name + "*" + Decimal(index), "*=");
  }

  lemma {:induction false} LabelledAreShort(name: string, segments: seq<string>, index: nat)
    requires AllAscii(name) && |name| <= 8 && index + |segments| <= Pow10(23) && AreShort(segments)
    requires forall k | 0 <= k < |segments| :: AllAscii(segments[k])
    ensures |Labelled(name, segments, index)| == |segments|
    ensures forall k | 0 <= k < |segments| :: ByteLength(Labelled(name, segments, index)[k]) <= 76
  {
    hide Label, Pow10, ByteLength;
    if segments != [] {
      LabelIsShort(name, index);
      AsciiByteLength(Label(name, index) + segments[0]);
      LabelledAreShort(name, segments[1..], index + 1);
    }
  }

  /** The check in the header writer never fires, for the two names it is used with
      and any value shorter than 10^23 characters. */
  lemma SegmentsFitOnLines(name: string, value: string)
    requires AllAscii(name) && |name| <= 8 && |value| + 1 <= Pow10(23)
    ensures forall k | 0 <= k < |Rendered(name, value)| :: FitsOnItsLine(Rendered(name, value), k)
  {
    hide Pow10, ByteLength, Atoms, Segments, Labelled, PercentEncoded, ToUtf8;
    if IsPlain(value) {
      AsciiByteLength(name + "=\"" + value + "\"");
    } else {
      var segments := Segments(Atoms(value), "");
      ValueSegments(value);
      SegmentsAreGraphic(value);
      LabelledAreShort(name, segments, 0);
    }
  }

  predicate HoldsNoControl(s: string) {
    forall k | 0 <= k < |s| :: !IsControl(s[k])
  }

  lemma DecimalHoldsNoControl(n: nat)
    ensures HoldsNoControl(Decimal(n))
  {
  }

  lemma ControlConcat(a: string, b: string)
    requires HoldsNoControl(a) && (HoldsNoControl(b) || AllGraphic(b))
    ensures HoldsNoControl(a + b)
  {
  }

  lemma LabelHoldsNoControl(name: string, index: nat)
    requires HoldsNoControl(name)
    ensures HoldsNoControl(Label(name, index))
  {
    DecimalHoldsNoControl(index);
    hide Decimal;
  }

  lemma {:induction false} LabelledHoldNoControl(name: string, segments: seq<string>, index: nat)
    requires HoldsNoControl(name) && forall k | 0 <= k < |segments| :: AllGraphic(segments[k])
    ensures forall k | 0 <= k < |Labelled(name, segments, index)| :: HoldsNoControl(Labelled(name, segments, index)[k])
  {
    if segments != [] {
      LabelHoldsNoControl(name, index);
      LabelledHoldNoControl(name, segments[1..], index + 1);
      assert AllGraphic(segments[0]);
      ControlConcat(Label(name, index), segments[0]);
      hide Label;
    }
  }

  /** No parameter breaks a line, whatever the value holds. */
  lemma RenderedIsOneLine(name: string, value: string)
    requires HoldsNoControl(name)
    ensures forall k | 0 <= k < |Rendered(name, value)| :: HoldsNoControl(Rendered(name, value)[k])
  {
    hide Segments, Atoms, Labelled;
    if IsPlain(value) {
      ControlConcat(name, "=\"");
      ControlConcat(name + "=\"", value);
      ControlConcat(name + "=\"" + value, "\"");
    } else {
      SegmentsAreGraphic(value);
      var segments := Segments(Atoms(value), "");
      assert forall k | 0 <= k < |segments| :: AllGraphic(segments[k]);
      LabelledHoldNoControl(name, segments, 0);
    }
  }
}
