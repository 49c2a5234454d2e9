// Writing a header as folded tokens, reading it back unfolded, and the round
// trip of the threading headers between the two.
module ThreadingHeader {
  import opened MailText
  import opened IdScanners
  import opened IdGrammar
  import opened IdCanonical
  import opened IdSequence

  const RECOMMENDED_HEADER_LINE_LENGTH := 78
  const MAX_WIRE_LINE_LENGTH := 998

  // ---- Folding

  predicate FitsOnLine(column: nat, token: string) {
    column + 1 + ByteLength(token) <= RECOMMENDED_HEADER_LINE_LENGTH
  }

  /** Tokens after a header's name: on the line while they fit, else on a new one. */
  function Folded(tokens: seq<string>, column: nat): string {
    if tokens == [] then ""
    else if FitsOnLine(column, tokens[0]) then
      " " + tokens[0] + Folded(tokens[1..], column + 1 + ByteLength(tokens[0]))
    else
      "\r\n " + tokens[0] + Folded(tokens[1..], 1 + ByteLength(tokens[0]))
  }

  predicate IsWritable(token: string) {
    IsHeaderText(token) && ByteLength(token) < MAX_WIRE_LINE_LENGTH
  }

  lemma FoldedNothing(before: string, tokens: seq<string>, column: nat)
    ensures before + Folded(tokens[|tokens|..], column) == before
  {
  }

  lemma FoldedStep(before: string, tokens: seq<string>, k: nat, column: nat)
    requires k < |tokens|
    ensures var token := tokens[k];
      before + Folded(tokens[k..], column) ==
      if FitsOnLine(column, token)
      then before + " " + token + Folded(tokens[k + 1..], column + 1 + ByteLength(token))
      else before + "\r\n " + token + Folded(tokens[k + 1..], 1 + ByteLength(token))
  {
    hide ByteLength;
    assert tokens[k..][1..] == tokens[k + 1..];
  }

  class MessageBuffer {
    var out: string

    constructor ()
      ensures out == ""
    {
      out := "";
    }

    method WriteTokenHeader(name: string, tokens: seq<string>) returns (ok: bool)
      modifies this
      ensures ok <==> forall k | 0 <= k < |tokens| :: IsWritable(tokens[k])
      ensures ok ==> out == old(out) + name + ":" + Folded(tokens, ByteLength(name) + 1) + "\r\n"
      ensures old(out) <= out
    {
      hide ByteLength, IsHeaderText, Folded;
      out := out + name;
      out := out + ":";
      var column: nat := ByteLength(name) + 1;
      if tokens == [] {
        FoldedNothing(out, tokens, column);
        out := out + "\r\n";
        return true;
      }
      ghost var complete := out + Folded(tokens, column);
      assert tokens[0..] == tokens;
      for k := 0 to |tokens|
        invariant forall j | 0 <= j < k :: IsWritable(tokens[j])
        invariant old(out) <= out
        invariant out + Folded(tokens[k..], column) == complete
      {
        var token := tokens[k];
        FoldedStep(out, tokens, k, column);
        if !IsHeaderText(token) || ByteLength(token) >= MAX_WIRE_LINE_LENGTH {
          return false;
        }
        if column + 1 + ByteLength(token) <= RECOMMENDED_HEADER_LINE_LENGTH {
          out := out + " ";
          column := column + 1;
        } else {
          out := out + "\r\n ";
          column := 1;
        }
        out := out + token;
        column := column + ByteLength(token);
      }
      FoldedNothing(out, tokens, column);
      out := out + "\r\n";
      return true;
    }
  }

  // ---- Unfolding

  /** Line breaks before white space disappear; any other break, and any
      control character, is an error. */
  function Unfolded(raw: string): Option<string>
    decreases |raw|
  {
    if raw == "" then Some("")
    else if raw[0] == '\r' || raw[0] == '\n' then
      var next := if raw[0] == '\r' then 2 else 1;
      if (raw[0] == '\r' && (|raw| == 1 || raw[1] != '\n')) || |raw| <= next || !IsWsp(raw[next]) then None
      else Unfolded(raw[next..])
    else if raw[0] == '\t' || (raw[0] >= ' ' && raw[0] as int != 0x7F) then
      var rest := Unfolded(raw[1..]);
      if rest.None? then None else Some([raw[0]] + rest.value)
    else None
  }

  method UnfoldRawStructuredHeader(raw: string) returns (r: Option<string>)
    ensures r == Unfolded(raw)
  {
    var unfolded := "";
    var index := 0;
    assert Unfolded(raw).Some? ==> "" + Unfolded(raw).value == Unfolded(raw).value;
    while index < |raw|
      invariant index <= |raw|
      invariant Unfolded(raw) ==
                if Unfolded(raw[index..]).None? then None else Some(unfolded + Unfolded(raw[index..]).value)
    {
      var c := raw[index];
      ghost var rest := raw[index..];
      if c == '\r' || c == '\n' {
        if c == '\r' {
          if index + 1 == |raw| || raw[index + 1] != '\n' {
            return None;
          }
          index := index + 2;
          assert rest[2..] == raw[index..];
        } else {
          index := index + 1;
        }
        if index == |raw| || !IsWsp(raw[index]) {
          return None;
        }
        continue;
      }
      if !(c == '\t' || (c >= ' ' && c as int != 0x7F)) {
        return None;
      }
      assert rest[1..] == raw[index + 1..];
      assert Unfolded(rest[1..]).Some? ==>
               unfolded + ([c] + Unfolded(rest[1..]).value) == unfolded + [c] + Unfolded(rest[1..]).value;
      unfolded := unfolded + [c];
      index := index + 1;
    }
    assert unfolded + "" == unfolded;
    return Some(unfolded);
  }

  // ---- Unfolding undoes folding

  /** Every token after one space. */
  function Spaced(tokens: seq<string>): string {
    if tokens == [] then "" else " " + tokens[0] + Spaced(tokens[1..])
  }

  lemma {:induction false} TokenUnfolds(token: string, rest: string)
    requires IsHeaderText(token) && Unfolded(rest).Some?
    ensures Unfolded(token + rest) == Some(token + Unfolded(rest).value)
    decreases |token|
  {
    var text := token + rest;
    if token == "" {
      assert text == rest;
      assert token + Unfolded(rest).value == Unfolded(rest).value;
    } else {
      TokenUnfolds(token[1..], rest);
      assert text[1..] == token[1..] + rest;
      assert [token[0]] + (token[1..] + Unfolded(rest).value) == token + Unfolded(rest).value;
    }
  }

  lemma {:induction false} UnfoldingUndoesFolding(tokens: seq<string>, column: nat)
    requires forall k | 0 <= k < |tokens| :: IsHeaderText(tokens[k])
    ensures Unfolded(Folded(tokens, column)) == Some(Spaced(tokens))
    decreases |tokens|
  {
    hide ByteLength;
    if tokens != [] {
      var token := tokens[0];
      var column' := if FitsOnLine(column, token) then column + 1 + ByteLength(token) else 1 + ByteLength(token);
      var rest := Folded(tokens[1..], column');
      UnfoldingUndoesFolding(tokens[1..], column');
      assert IsHeaderText(" " + token);
      TokenUnfolds(" " + token, rest);
      var line := " " + token + rest;
      if !FitsOnLine(column, token) {
        var folded := "\r\n " + token + rest;
        assert folded[2..] == line;
      }
    }
  }

  // ---- Parsing undoes spacing

  lemma CanonicalInner(id: string) returns (inner: string)
    requires IsCanonicalId(id)
    ensures id == "<" + inner + ">" && Hides(inner, '>')
  {
    hide ValidObsIdLeft, ValidIdRight, Hides;
    var left, right :| id == "<" + (left + "@" + right) + ">" && ValidObsIdLeft(left) && ValidIdRight(right);
    inner := left + "@" + right;
    CanonicalHalvesSeparate(left, right);
  }

  /** A canonical identifier ends at its closing bracket, whatever follows it. */
  lemma CanonicalEnds(v: string, start: nat, id: string)
    requires IsCanonicalId(id) && start + |id| <= |v| && v[start..start + |id|] == id
    ensures IdEnd(v, start + 1) == Some(start + |id| - 1)
  {
    hide IsCanonicalId, IdEnd, Hides;
    var inner := CanonicalInner(id);
    var slice := v[start..start + |id|];
    assert id[1..1 + |inner|] == inner && id[1 + |inner|] == '>';
    assert slice[1..1 + |inner|] == inner;
    SliceOfSlice(v, start, start + |id|, 1, 1 + |inner|);
    assert v[start + 1 + |inner|] == slice[1 + |inner|];
    InnerEnds(v, start + 1, inner);
  }

  lemma InnerEnds(v: string, start: nat, inner: string)
    requires start + |inner| < |v| && v[start..start + |inner|] == inner && v[start + |inner|] == '>'
    requires Hides(inner, '>')
    ensures IdEnd(v, start) == Some(start + |inner|)
  {
    var end := start + |inner|;
    assert IsIdEnd(v, start, end) by {
      forall k | start <= k < end && LexRun(PLAIN, v[start..k]) == PLAIN
        ensures v[k] != '>'
      {
        assert v[start..k] == inner[..k - start];
        assert v[k] == inner[k - start];
      }
    }
    IdEndUnique(v, start, end, IdEnd(v, start).value);
  }

  lemma SpaceThenId(v: string, i: nat)
    requires i + 1 < |v| && v[i] == ' ' && v[i + 1] == '<'
    ensures CfwsEnd(v, i) == Some(i + 1)
  {
  }

  lemma IdIsBracketed(id: string)
    requires IsCanonicalId(id)
    ensures |id| > 1 && id[0] == '<'
  {
  }

  lemma {:induction false} ParsingUndoesSpacing(v: string, i: nat, ids: seq<string>, obsolete: bool)
    requires i <= |v| && v[i..] == Spaced(ids) && AllFixed(ids, obsolete)
    ensures ParseIds(v, i, obsolete) == Some(ids)
    decreases |ids|, 1
  {
    hide ParseIds, Canonical, CfwsEnd, IsCanonicalId;
    if ids == [] {
      ParseNothing(v, obsolete);
    } else {
      var id := ids[0];
      assert IsFixed(id, obsolete);
      IdIsBracketed(id);
      assert v[i..] == " " + id + Spaced(ids[1..]);
      assert v[i + 1..] == v[i..][1..] == id + Spaced(ids[1..]);
      SpaceThenId(v, i);
      IdThenSpaced(v, i, i + 1, ids, obsolete);
    }
  }

  lemma {:induction false} IdThenSpaced(v: string, i: nat, start: nat, ids: seq<string>, obsolete: bool)
    requires i <= start <= |v| && CfwsEnd(v, i) == Some(start)
    requires ids != [] && AllFixed(ids, obsolete)
    requires v[start..] == ids[0] + Spaced(ids[1..])
    ensures ParseIds(v, i, obsolete) == Some(ids)
    decreases |ids|, 0
  {
    hide ParseIds, Canonical, CfwsEnd, IsCanonicalId;
    var id := ids[0];
    assert IsFixed(id, obsolete);
    IdIsBracketed(id);
    var end := start + |id|;
    assert v[start..end] == v[start..][..|id|] == id;
    assert v[end..] == v[start..][|id|..] == Spaced(ids[1..]);
    assert v[start] == id[0];
    ParseStep(v, i, start, obsolete);
    CanonicalEnds(v, start, id);
    ParsingUndoesSpacing(v, end, ids[1..], obsolete);
    assert [id] + ids[1..] == ids;
  }

  // ---- The round trip

  /** Unfolding a header's value and parsing it yields these identifiers. */
  ghost predicate IsReadAs(raw: string, ids: seq<string>, obsolete: bool) {
    var value := Unfolded(raw);
    value.Some? && TokensOf([value.value], obsolete) == Some(ids)
  }

  lemma {:induction false} SpacedIsHeaderText(ids: seq<string>)
    requires forall k | 0 <= k < |ids| :: IsHeaderText(ids[k])
    ensures IsHeaderText(Spaced(ids))
    decreases |ids|
  {
    if ids != [] {
      SpacedIsHeaderText(ids[1..]);
    }
  }

  lemma TokensStep(values: seq<string>, first: seq<string>, rest: seq<string>, obsolete: bool)
    requires values != [] && IsHeaderText(values[0])
    requires ParseIds(values[0], 0, obsolete) == Some(first) && TokensOf(values[1..], obsolete) == Some(rest)
    ensures TokensOf(values, obsolete) == Some(first + rest)
  {
    hide ParseIds, IsHeaderText;
  }

  lemma OneValue(value: string, ids: seq<string>, obsolete: bool)
    requires IsHeaderText(value) && ParseIds(value, 0, obsolete) == Some(ids)
    ensures TokensOf([value], obsolete) == Some(ids)
  {
    hide ParseIds, IsHeaderText;
    assert [value][1..] == [];
    TokensStep([value], ids, [], obsolete);
    assert ids + [] == ids;
  }

  lemma FixedIdsAreText(ids: seq<string>, obsolete: bool)
    requires AllFixed(ids, obsolete)
    ensures forall k | 0 <= k < |ids| :: IsHeaderText(ids[k]) && ByteLength(ids[k]) == |ids[k]|
  {
    forall k | 0 <= k < |ids|
      ensures IsHeaderText(ids[k]) && ByteLength(ids[k]) == |ids[k]|
    {
      assert IsFixed(ids[k], obsolete);
      CanonicalIsPrintable(ids[k]);
      AsciiByteLength(ids[k]);
    }
  }

  lemma FoldedIdsReadBack(ids: seq<string>, column: nat, obsolete: bool)
    requires AllFixed(ids, obsolete)
    ensures IsReadAs(Folded(ids, column), ids, obsolete)
  {
    var spaced := Spaced(ids);
    FixedIdsAreText(ids, obsolete);
    UnfoldingUndoesFolding(ids, column);
    SpacedIsHeaderText(ids);
    assert spaced[0..] == spaced;
    ParsingUndoesSpacing(spaced, 0, ids, obsolete);
    OneValue(spaced, ids, obsolete);
  }

  lemma FoldedFirst(ids: seq<string>, column: nat)
    requires ids != [] && FitsOnLine(column, ids[0])
    ensures Folded(ids, column)[1..] == ids[0] + Folded(ids[1..], column + 1 + ByteLength(ids[0]))
  {
    hide ByteLength;
    assert Folded(ids, column) == " " + (ids[0] + Folded(ids[1..], column + 1 + ByteLength(ids[0])));
  }

  lemma NoCfwsAtBracket(v: string)
    requires v != "" && v[0] == '<'
    ensures CfwsEnd(v, 0) == Some(0)
  {
  }

  lemma HeaderTextConcat(a: string, b: string)
    requires IsHeaderText(a) && IsHeaderText(b)
    ensures IsHeaderText(a + b)
  {
  }

  /** The same without the space after the colon. */
  lemma TrimmedIdsReadBack(ids: seq<string>, column: nat, obsolete: bool)
    requires AllFixed(ids, obsolete) && ids != [] && FitsOnLine(column, ids[0])
    ensures IsReadAs(Folded(ids, column)[1..], ids, obsolete)
  {
    hide ParseIds, Canonical, CfwsEnd, IsCanonicalId, TokensOf, IsHeaderText, Folded, Unfolded, Spaced;
    var id := ids[0];
    var column' := column + 1 + ByteLength(id);
    var rest := Folded(ids[1..], column');
    var value := id + Spaced(ids[1..]);
    FoldedFirst(ids, column);
    FixedIdsAreText(ids, obsolete);
    UnfoldingUndoesFolding(ids[1..], column');
    TokenUnfolds(id, rest);
    SpacedIsHeaderText(ids[1..]);
    assert IsFixed(id, obsolete);
    IdIsBracketed(id);
    NoCfwsAtBracket(value);
    assert value[0..] == value;
    HeaderTextConcat(id, Spaced(ids[1..]));
    IdThenSpaced(value, 0, 0, ids, obsolete);
    OneValue(value, ids, obsolete);
  }

  /** Threading headers round trip: the identifiers read from any values of a
      field, written as a folded header, read back as themselves. The write
      fails only for an identifier too long for a line. */
  lemma RoundTrip(name: string, values: seq<string>, obsolete: bool)
    requires TokensOf(values, obsolete).Some?
    ensures var ids := TokensOf(values, obsolete).value;
      var raw := Folded(ids, ByteLength(name) + 1);
      && IsReadAs(raw, ids, obsolete)
      && (raw != "" && raw[0] == ' ' ==> IsReadAs(raw[1..], ids, obsolete))
      && ((forall k | 0 <= k < |ids| :: IsWritable(ids[k])) <==>
          (forall k | 0 <= k < |ids| :: |ids[k]| < MAX_WIRE_LINE_LENGTH))
  {
    hide TokensOf, AllFixed, IsReadAs, IsHeaderText;
    var ids := TokensOf(values, obsolete).value;
    var column := ByteLength(name) + 1;
    TokensAreFixed(values, obsolete);
    FoldedIdsReadBack(ids, column, obsolete);
    FixedIdsAreText(ids, obsolete);
    if ids != [] && FitsOnLine(column, ids[0]) {
      TrimmedIdsReadBack(ids, column, obsolete);
    }
  }

  /** Parsing is a projection: joining what was read and reading it again changes nothing. */
  lemma ParsingIsProjection(values: seq<string>, obsolete: bool)
    requires TokensOf(values, obsolete).Some?
    ensures var ids := TokensOf(values, obsolete).value;
      TokensOf([Spaced(ids)], obsolete) == Some(ids) && TokensOf(ids, obsolete) == Some(ids)
  {
    var ids := TokensOf(values, obsolete).value;
    TokensAreFixed(values, obsolete);
    FixedIdsAreText(ids, obsolete);
    SpacedIsHeaderText(ids);
    assert Spaced(ids)[0..] == Spaced(ids);
    ParsingUndoesSpacing(Spaced(ids), 0, ids, obsolete);
    OneValue(Spaced(ids), ids, obsolete);
    EachReadAlone(ids, obsolete);
  }

  lemma IdReadsAlone(id: string, obsolete: bool)
    requires IsFixed(id, obsolete)
    ensures ParseIds(id, 0, obsolete) == Some([id])
  {
    hide ParseIds, Canonical, CfwsEnd, IsCanonicalId;
    IdIsBracketed(id);
    NoCfwsAtBracket(id);
    assert id[0..] == id + Spaced([]);
    IdThenSpaced(id, 0, 0, [id], obsolete);
  }

  lemma {:induction false} EachReadAlone(ids: seq<string>, obsolete: bool)
    requires AllFixed(ids, obsolete)
    ensures TokensOf(ids, obsolete) == Some(ids)
    decreases |ids|
  {
    hide IsFixed, ParseIds, IsHeaderText;
    if ids != [] {
      assert IsFixed(ids[0], obsolete);
      FixedIdsAreText(ids, obsolete);
      IdReadsAlone(ids[0], obsolete);
      EachReadAlone(ids[1..], obsolete);
      TokensStep(ids, [ids[0]], ids[1..], obsolete);
      assert [ids[0]] + ids[1..] == ids;
    }
  }
}
