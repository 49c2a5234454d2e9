// The canonical form of a message identifier: what it is, that computing it
// never trips over its own re-checks, and that it is its own canonical form.
module IdCanonical {
  import opened MailText
  import opened IdScanners
  import opened IdGrammar
  import opened IdStripping

  // ---- Canonical halves are inert, and the obsolete grammar takes them as they are

  lemma LexRunHead(s: Lex, text: string)
    requires text != ""
    ensures LexRun(s, text) == LexRun(LexStep(s, text[0]), text[1..])
  {
    assert text == text[..1] + text[1..];
    LexRunConcat(s, text[..1], text[1..]);
    assert text[..1][..0] == "";
    assert LexRun(s, text[..1]) == LexStep(LexRun(s, ""), text[0]);
  }

  /** A quoted-string stays quoted up to its closing quote. */
  lemma {:induction false} QuotedStaysQuoted(s: string, escaped: bool)
    requires QuotedLength(s, escaped) != 0
    ensures var n := QuotedLength(s, escaped);
      && LexRun(Lex(true, false, escaped, 0), s[..n]) == PLAIN
      && forall k | 0 <= k < n :: LexRun(Lex(true, false, escaped, 0), s[..k]) != PLAIN
    decreases |s|
  {
    var n := QuotedLength(s, escaped);
    var open := Lex(true, false, escaped, 0);
    var next := LexStep(open, s[0]);
    LexRunHead(open, s[..n]);
    assert s[..n][1..] == s[1..][..n - 1];
    if n > 1 {
      QuotedStaysQuoted(s[1..], next.escaped);
    }
    forall k | 0 <= k < n
      ensures LexRun(open, s[..k]) != PLAIN
    {
      if k > 0 {
        LexRunHead(open, s[..k]);
        assert s[..k][1..] == s[1..][..k - 1];
      }
    }
  }

  lemma {:induction false} LiteralStaysLiteral(s: string)
    requires ValidLiteralContent(s)
    ensures LexRun(Lex(false, true, false, 0), s) == Lex(false, true, false, 0)
    ensures forall k | 0 <= k <= |s| :: LexRun(Lex(false, true, false, 0), s[..k]) != PLAIN
    decreases |s|
  {
    var open := Lex(false, true, false, 0);
    if s != "" {
      var n := if s[0] == '\\' then 2 else 1;
      var rest := s[n..];
      LiteralStaysLiteral(rest);
      LexRunHead(open, s);
      if n == 2 {
        LexRunHead(LexStep(open, s[0]), s[1..]);
        assert s[1..][1..] == rest;
      }
      forall k | 0 <= k <= |s|
        ensures LexRun(open, s[..k]) != PLAIN
      {
        if k > 0 {
          LexRunHead(open, s[..k]);
          if n == 2 && k > 1 {
            LexRunHead(LexStep(open, s[0]), s[..k][1..]);
            assert s[..k][1..][1..] == rest[..k - 2];
          } else if n == 1 {
            assert s[..k][1..] == rest[..k - 1];
          } else {
            assert s[..k][1..] == "";
          }
        }
      }
    }
  }

  lemma {:induction false} PlainTextIsInert(s: string)
    requires forall k | 0 <= k < |s| :: IsAtext(s[k]) || s[k] == '.'
    ensures Inert(s)
    decreases |s|
  {
    if s != "" {
      CharHides(s[0], '@');
      CharHides(s[0], '>');
      PlainTextIsInert(s[1..]);
      InertConcat([s[0]], s[1..]);
      assert [s[0]] + s[1..] == s;
    }
  }

  /** A text that opens something and closes it only at its end. */
  lemma EnclosedIsInert(text: string)
    requires text != "" && text[0] != '@' && text[0] != '>'
    requires LexRun(PLAIN, text) == PLAIN
    requires forall k | 0 < k < |text| :: LexRun(PLAIN, text[..k]) != PLAIN
    ensures Inert(text)
  {
  }

  lemma WordIsInert(word: string)
    requires WordLength(word) == |word| != 0
    ensures Inert(word)
  {
    if word[0] == '"' {
      var rest := word[1..];
      QuotedStaysQuoted(rest, false);
      assert rest[..|rest|] == rest;
      LexRunHead(PLAIN, word);
      forall k | 0 < k < |word|
        ensures LexRun(PLAIN, word[..k]) != PLAIN
      {
        LexRunHead(PLAIN, word[..k]);
        assert word[..k][1..] == rest[..k - 1];
      }
      EnclosedIsInert(word);
    } else {
      AtomIsMaximal(word);
      PlainTextIsInert(word);
    }
  }

  lemma {:induction false} LeftIsInert(s: string)
    requires ValidObsIdLeft(s)
    ensures Inert(s)
    decreases |s|
  {
    hide LexRun, LexStep;
    var n := WordLength(s);
    var word := s[..n];
    WordEndsAlike(s, "");
    assert word + "" == word;
    hide Inert, IsAtext;
    WordIsInert(word);
    if n < |s| {
      LeftIsInert(s[n + 1..]);
      PlainTextIsInert(".");
      InertConcat(word, ".");
      InertConcat(word + ".", s[n + 1..]);
      assert word + "." + s[n + 1..] == s;
    } else {
      assert word == s;
    }
  }

  lemma {:induction false} LeftIsKept(s: string, out: string)
    requires ValidObsIdLeft(s)
    ensures StripRun(Bare(out), s) == Bare(out + s)
    decreases |s|
  {
    var n := WordLength(s);
    var word := s[..n];
    WordIsKept(s, out);
    if n < |s| {
      var rest := s[n + 1..];
      assert s[n..][0] == '.' && s[n..][1..] == rest;
      LeftIsKept(rest, out + word + ".");
      assert out + word + "." + rest == out + s;
    } else {
      assert word == s;
    }
  }

  lemma NoCfwsAtWord(v: string, i: nat)
    requires i < |v| && (v[i] == '"' || v[i] == '.' || IsAtext(v[i]))
    ensures CfwsEnd(v, i) == Some(i)
  {
  }

  lemma CanonicalWordStands(v: string, i: nat)
    requires i <= |v| && WordLength(v[i..]) != 0
    requires var end := i + WordLength(v[i..]); end == |v| || v[end] == '.'
    ensures ObsWordEnd(v, i) == Some(i + WordLength(v[i..]))
  {
    var s := v[i..];
    assert s[0] == v[i];
    NoCfwsAtWord(v, i);
    var end := i + WordLength(s);
    if end < |v| {
      NoCfwsAtWord(v, end);
    }
  }

  lemma {:induction false} LeftIsObsolete(v: string, i: nat)
    requires i <= |v| && ValidObsIdLeft(v[i..])
    ensures ValidLeftWithCfws(v, i)
    decreases |v| - i
  {
    hide WordLength, ObsWordEnd;
    var s := v[i..];
    var n := WordLength(s);
    if n < |s| {
      assert s[n] == v[i + n];
      assert s[n + 1..] == v[i + n + 1..];
      LeftIsObsolete(v, i + n + 1);
    }
    CanonicalWordStands(v, i);
  }

  lemma {:induction false} PlainTextIsKept(s: string, out: string)
    requires forall k | 0 <= k < |s| :: IsAtext(s[k]) || s[k] == '.'
    ensures StripRun(Bare(out), s) == Bare(out + s)
    decreases |s|
  {
    if s == "" {
      assert out + s == out;
    } else {
      PlainTextIsKept(s[1..], out + [s[0]]);
      assert out + [s[0]] + s[1..] == out + s;
    }
  }

  lemma DotAtomSplits(s: string)
    requires ValidDotAtom(s)
    ensures var n := AtomLength(s);
      n > 0 && (n == |s| || (s[n] == '.' && n + 1 < |s| && ValidDotAtom(s[n + 1..])))
  {
    hide IsAtext, AtomLength;
    AtomIsMaximal(s);
    var n := AtomLength(s);
    if n < |s| {
      var rest := s[n + 1..];
      assert forall k | 0 <= k < |rest| :: rest[k] == s[n + 1 + k];
    }
  }

  /** No white space or comment stands at an atom, or at the dot after it. */
  lemma AtomIsObsolete(v: string, i: nat, n: nat)
    requires i <= |v| && n == AtomLength(v[i..]) > 0 && i + n <= |v| && (i + n < |v| ==> v[i + n] == '.')
    ensures ObsAtomEnd(v, i) == Some(i + n)
  {
    var s := v[i..];
    AtomIsMaximal(s);
    AtextIsOrdinary(s[0]);
    assert v[i] == s[0];
    hide IsAtext, AtomLength, CommentEnd;
    assert CfwsEnd(v, i) == Some(i);
    assert CfwsEnd(v, i + n) == Some(i + n);
  }

  lemma {:induction false} DomainIsObsolete(v: string, i: nat)
    requires i <= |v| && ValidDotAtom(v[i..])
    ensures ValidDomainWithCfws(v, i)
    decreases |v| - i
  {
    hide ValidDotAtom, ObsAtomEnd, AtomLength;
    var s := v[i..];
    var n := AtomLength(s);
    DotAtomSplits(s);
    if n < |s| {
      assert s[n] == v[i + n] && s[n + 1..] == v[i + n + 1..];
      DomainIsObsolete(v, i + n + 1);
    }
    AtomIsObsolete(v, i, n);
  }

  lemma {:induction false} LiteralIsObsolete(v: string, i: nat, hasContent: bool, out: string)
    requires i < |v| && v[|v| - 1] == ']' && ValidLiteralContent(v[i..|v| - 1])
    requires hasContent || i < |v| - 1
    ensures ValidLiteralWithCfws(v, i, hasContent)
    ensures StripRun(Live(false, true, false, 0, out), v[i..]) == Bare(out + v[i..])
    decreases |v| - i
  {
    var s := v[i..|v| - 1];
    assert v[i..][1..] == v[i + 1..];
    if s == "" {
      assert v[i..] == "]";
      assert v[i + 1..] == "";
    } else {
      assert s[0] == v[i];
      if s[0] == '\\' {
        assert s[1] == v[i + 1] && s[2..] == v[i + 2..|v| - 1];
        assert v[i + 1..][1..] == v[i + 2..];
        LiteralIsObsolete(v, i + 2, true, out + [v[i]] + [v[i + 1]]);
        assert out + [v[i]] + [v[i + 1]] + v[i + 2..] == out + v[i..];
      } else {
        assert s[1..] == v[i + 1..|v| - 1];
        LiteralIsObsolete(v, i + 1, true, out + [v[i]]);
        assert out + [v[i]] + v[i + 1..] == out + v[i..];
      }
    }
  }

  lemma RightIsKept(s: string, out: string)
    requires ValidIdRight(s)
    ensures StripRun(Bare(out), s) == Bare(out + s)
    ensures ValidRightWithCfws(s)
  {
    assert s[0..] == s;
    if s[0] == '[' {
      LiteralIsObsolete(s, 1, false, out + "[");
      assert out + "[" + s[1..] == out + s;
    } else {
      PlainTextIsKept(s, out);
      DomainIsObsolete(s, 0);
    }
  }

  lemma RightIsInert(s: string)
    requires ValidIdRight(s)
    ensures Inert(s)
  {
    if s[0] == '[' {
      var content := s[1..|s| - 1];
      LiteralStaysLiteral(content);
      LexRunHead(PLAIN, s);
      assert s[1..] == content + "]";
      assert s[1..][..|s[1..]| - 1] == content;
      assert content[..|content|] == content;
      forall k | 0 < k < |s|
        ensures LexRun(PLAIN, s[..k]) != PLAIN
      {
        LexRunHead(PLAIN, s[..k]);
        assert s[..k][1..] == content[..k - 1];
      }
      EnclosedIsInert(s);
    } else {
      PlainTextIsInert(s);
    }
  }

  // ---- The canonical form

  /** An identifier in canonical form: brackets, no comment, no white space
      outside quotes, one separator. */
  ghost predicate IsCanonicalId(id: string) {
    exists left, right :: id == "<" + (left + "@" + right) + ">" && ValidObsIdLeft(left) && ValidIdRight(right)
  }

  predicate IsBracketed(value: string) {
    value != "" && value[0] == '<' && value[|value| - 1] == '>'
  }

  /** The identifier without what is semantically empty, if its halves are valid. */
  function Reduced(source: string, at: nat, obsolete: bool): Option<string>
    requires at < |source|
  {
    var left, right := source[..at], source[at + 1..];
    if obsolete then
      if ValidLeftWithCfws(left, 0) && ValidRightWithCfws(right) then Stripped(source) else None
    else if ValidDotAtom(left) && ValidIdRight(right) then Some(source)
    else None
  }

  /** The second round of checks, on the reduced text. */
  ghost function Rechecked(inner: string): Option<string> {
    var at := Separator(inner);
    if at.Some? && ValidObsIdLeft(inner[..at.value]) && ValidIdRight(inner[at.value + 1..])
    then Some("<" + inner + ">")
    else None
  }

  ghost function Canonical(value: string, obsolete: bool): Option<string> {
    if !IsBracketed(value) || !(obsolete || AllAscii(value)) then None else
    var source := value[1..|value| - 1];
    var at := Separator(source);
    if at.None? then None else
    var inner := Reduced(source, at.value, obsolete);
    if inner.None? then None else Rechecked(inner.value)
  }

  lemma NoOtherBareAt(left: string, right: string, j: nat)
    requires Inert(left) && Inert(right)
    requires j != |left|
    ensures !IsBareAt(left + "@" + right, j)
  {
    var inner := left + "@" + right;
    if j < |left| {
      assert inner[..j] == left[..j];
    } else if j < |inner| {
      var k := j - |left| - 1;
      PlainAt(left);
      assert inner[..j] == left + "@" + right[..k];
      LexRunConcat(PLAIN, left + "@", right[..k]);
      assert inner[j] == right[k];
    }
  }

  lemma PlainAt(left: string)
    requires LexRun(PLAIN, left) == PLAIN
    ensures LexRun(PLAIN, left + "@") == PLAIN
  {
    assert (left + "@")[..|left|] == left;
  }

  /** Inert halves are separated where they meet. */
  lemma InertHalvesSeparate(left: string, right: string)
    requires Inert(left) && Inert(right)
    ensures Separator(left + "@" + right) == Some(|left|)
    ensures Hides(left + "@" + right, '>')
  {
    hide LexRun, Separator;
    var inner := left + "@" + right;
    CharHides('@', '>');
    HidesConcat(left, "@", '>');
    HidesConcat(left + "@", right, '>');
    assert inner[..|left|] == left;
    assert IsBareAt(inner, |left|);
    forall j | 0 <= j < |inner| && IsBareAt(inner, j)
      ensures j == |left|
    {
      if j != |left| {
        NoOtherBareAt(left, right, j);
      }
    }
    assert IsSeparator(inner, |left|);
  }

  lemma CanonicalHalvesSeparate(left: string, right: string)
    requires ValidObsIdLeft(left) && ValidIdRight(right)
    ensures Separator(left + "@" + right) == Some(|left|)
    ensures Hides(left + "@" + right, '>')
  {
    hide *;
    LeftIsInert(left);
    RightIsInert(right);
    InertHalvesSeparate(left, right);
  }

  lemma RecheckPasses(left: string, right: string)
    requires ValidObsIdLeft(left) && ValidIdRight(right)
    ensures Rechecked(left + "@" + right) == Some("<" + (left + "@" + right) + ">")
  {
    var inner := left + "@" + right;
    CanonicalHalvesSeparate(left, right);
    assert inner[..|left|] == left && inner[|left| + 1..] == right;
  }

  lemma AtIsKept(out: string, rest: string)
    ensures StripRun(Bare(out), "@" + rest) == StripRun(Bare(out + "@"), rest)
  {
    assert ("@" + rest)[1..] == rest;
  }

  lemma CanonicalIsKept(left: string, right: string)
    requires ValidObsIdLeft(left) && ValidIdRight(right)
    ensures Stripped(left + "@" + right) == Some(left + "@" + right)
  {
    LeftIsKept(left, "");
    assert "" + left == left;
    StripRunConcat(Bare(""), left, "@" + right);
    assert left + ("@" + right) == left + "@" + right;
    AtIsKept(left, right);
    RightIsKept(right, left + "@");
  }

  lemma CanonicalIsReduced(left: string, right: string)
    requires ValidObsIdLeft(left) && ValidIdRight(right)
    ensures Reduced(left + "@" + right, |left|, true) == Some(left + "@" + right)
  {
    var inner := left + "@" + right;
    assert inner[..|left|] == left && inner[|left| + 1..] == right;
    assert left[0..] == left;
    LeftIsObsolete(left, 0);
    RightIsKept(right, "");
    CanonicalIsKept(left, right);
  }

  lemma CanonicalUnfolds(inner: string, at: nat, obsolete: bool)
    requires Separator(inner) == Some(at) && (obsolete || AllAscii("<" + inner + ">"))
    requires Reduced(inner, at, obsolete).Some?
    ensures Canonical("<" + inner + ">", obsolete) == Rechecked(Reduced(inner, at, obsolete).value)
  {
    var id := "<" + inner + ">";
    assert id[1..|id| - 1] == inner;
    assert IsBracketed(id);
  }

  lemma CanonicalText(left: string, right: string)
    requires ValidObsIdLeft(left) && ValidIdRight(right)
    ensures var id := "<" + (left + "@" + right) + ">";
      Canonical(id, true) == Some(id)
  {
    var inner := left + "@" + right;
    CanonicalHalvesSeparate(left, right);
    CanonicalIsReduced(left, right);
    RecheckPasses(left, right);
    CanonicalUnfolds(inner, |left|, true);
  }

  /** The obsolete grammar: two halves around one separator. */
  ghost predicate IsObsoleteId(value: string) {
    && IsBracketed(value)
    && var source := value[1..|value| - 1];
      var at := Separator(source);
      at.Some? && ValidLeftWithCfws(source[..at.value], 0) && ValidRightWithCfws(source[at.value + 1..])
  }

  /** Threading headers: the validators decide alone. Once they accept, stripping
      succeeds and none of the checks on its result can fail. */
  lemma ObsoleteChecksSuffice(value: string)
    ensures Canonical(value, true).Some? <==> IsObsoleteId(value)
    ensures IsObsoleteId(value) ==> IsCanonicalId(Canonical(value, true).value)
  {
    if IsObsoleteId(value) {
      var source := value[1..|value| - 1];
      var at := Separator(source).value;
      var left, right := source[..at], source[at + 1..];
      assert source == left + "@" + right;
      var l, r := StrippingPreservesGrammar(left, right);
      RecheckPasses(l, r);
    }
  }

  lemma {:induction false} DotAtomIsLeft(s: string)
    requires ValidDotAtom(s)
    ensures ValidObsIdLeft(s)
    decreases |s|
  {
    DotAtomSplits(s);
    var n := AtomLength(s);
    if n < |s| {
      DotAtomIsLeft(s[n + 1..]);
    }
  }

  lemma StrictHalves(value: string) returns (left: string, right: string)
    requires Canonical(value, false).Some?
    ensures value == "<" + (left + "@" + right) + ">"
    ensures ValidObsIdLeft(left) && ValidIdRight(right)
  {
    hide *;
    var source, at := StrictSource(value);
    left, right := source[..at], source[at + 1..];
    assert source == left + "@" + right;
    DotAtomIsLeft(left);
  }

  lemma StrictSource(value: string) returns (source: string, at: nat)
    requires Canonical(value, false).Some?
    ensures value == "<" + source + ">" && at < |source| && source[at] == '@'
    ensures ValidDotAtom(source[..at]) && ValidIdRight(source[at + 1..])
  {
    hide Separator, AllAscii, ValidDotAtom, ValidIdRight, LexRun, Rechecked;
    source := value[1..|value| - 1];
    at := Separator(source).value;
    assert value == "<" + source + ">";
  }

  /** What the strict Message-ID grammar accepts it returns unchanged, and the
      obsolete threading grammar accepts it with the same result. */
  lemma StrictIsObsolete(value: string)
    requires Canonical(value, false).Some?
    ensures Canonical(value, false) == Some(value)
    ensures Canonical(value, true) == Some(value)
    ensures IsCanonicalId(value)
  {
    assert value == "<" + value[1..|value| - 1] + ">";
    var left, right := StrictHalves(value);
    CanonicalText(left, right);
  }

  /** A canonical identifier is its own canonical form. */
  lemma CanonicalIsFixed(id: string)
    requires IsCanonicalId(id)
    ensures Canonical(id, true) == Some(id)
  {
    var left, right :| id == "<" + (left + "@" + right) + ">" && ValidObsIdLeft(left) && ValidIdRight(right);
    CanonicalText(left, right);
  }

  /** Whatever mode accepted an identifier, its canonical form is a fixed point of that mode. */
  lemma CanonicalIsIdempotent(value: string, obsolete: bool)
    requires Canonical(value, obsolete).Some?
    ensures var id := Canonical(value, obsolete).value;
      IsCanonicalId(id) && Canonical(id, obsolete) == Some(id)
  {
    if obsolete {
      ObsoleteChecksSuffice(value);
      CanonicalIsFixed(Canonical(value, true).value);
    } else {
      StrictIsObsolete(value);
    }
  }

  // ---- Canonical identifiers are printable text

  lemma {:induction false} QuotedIsPrintable(s: string, escaped: bool)
    requires QuotedLength(s, escaped) != 0
    ensures forall k | 0 <= k < QuotedLength(s, escaped) :: IsQuotedPairChar(s[k])
    decreases |s|
  {
    if escaped || s[0] != '"' {
      var escaped' := !escaped && s[0] == '\\';
      QuotedIsPrintable(s[1..], escaped');
      forall k | 0 < k < QuotedLength(s, escaped)
        ensures IsQuotedPairChar(s[k])
      {
        assert s[k] == s[1..][k - 1];
      }
    }
  }

  lemma {:induction false} LeftIsPrintable(s: string)
    requires ValidObsIdLeft(s)
    ensures forall k | 0 <= k < |s| :: IsQuotedPairChar(s[k])
    decreases |s|
  {
    var n := WordLength(s);
    if s[0] == '"' {
      QuotedIsPrintable(s[1..], false);
    } else {
      AtomIsMaximal(s);
    }
    forall k | 0 <= k < n
      ensures IsQuotedPairChar(s[k])
    {
      if s[0] == '"' && k > 0 {
        assert s[k] == s[1..][k - 1];
      }
    }
    if n < |s| {
      LeftIsPrintable(s[n + 1..]);
      forall k | n < k < |s|
        ensures IsQuotedPairChar(s[k])
      {
        assert s[k] == s[n + 1..][k - n - 1];
      }
    }
  }

  lemma {:induction false} LiteralIsPrintable(s: string)
    requires ValidLiteralContent(s)
    ensures forall k | 0 <= k < |s| :: IsQuotedPairChar(s[k])
    decreases |s|
  {
    if s != "" {
      var n := if s[0] == '\\' then 2 else 1;
      LiteralIsPrintable(s[n..]);
      forall k | 0 <= k < |s|
        ensures IsQuotedPairChar(s[k])
      {
        if k >= n {
          assert s[k] == s[n..][k - n];
        }
      }
    }
  }

  /** The conversion back to text, which the code expects to succeed, does. */
  lemma CanonicalIsPrintable(id: string)
    requires IsCanonicalId(id)
    ensures AllAscii(id) && IsHeaderText(id)
  {
    hide ValidObsIdLeft, ValidIdRight;
    var left, right :| id == "<" + (left + "@" + right) + ">" && ValidObsIdLeft(left) && ValidIdRight(right);
    LeftIsPrintable(left);
    RightIsPrintable(right);
    PrintableIsText(left, right);
  }

  lemma RightIsPrintable(s: string)
    requires ValidIdRight(s)
    ensures forall k | 0 <= k < |s| :: IsQuotedPairChar(s[k])
  {
    if s[0] == '[' {
      var content := s[1..|s| - 1];
      LiteralIsPrintable(content);
      forall k | 0 <= k < |s|
        ensures IsQuotedPairChar(s[k])
      {
        if 0 < k < |s| - 1 {
          assert s[k] == content[k - 1];
        }
      }
    }
  }

  lemma PrintableIsText(left: string, right: string)
    requires forall k | 0 <= k < |left| :: IsQuotedPairChar(left[k])
    requires forall k | 0 <= k < |right| :: IsQuotedPairChar(right[k])
    ensures var id := "<" + (left + "@" + right) + ">"; AllAscii(id) && IsHeaderText(id)
  {
    var inner := left + "@" + right;
    assert forall k | 0 <= k < |inner| :: IsQuotedPairChar(inner[k]);
    assert forall k | 0 <= k < |"<" + inner + ">"| :: IsQuotedPairChar(("<" + inner + ">")[k]);
  }

  method CanonicalMessageIdCore(value: string, obsolete: bool) returns (r: Option<string>)
    ensures r == Canonical(value, obsolete)
  {
    hide Separator, Stripped, ValidObsIdLeft, ValidIdRight, ValidDotAtom, AllAscii, ValidLeftWithCfws,
         ValidRightWithCfws;
    if !IsBracketed(value) || !(obsolete || AllAscii(value)) {
      return None;
    }
    var source := value[1..|value| - 1];
    var at := MessageIdSeparator(source);
    if at.None? {
      return None;
    }
    var left, right := source[..at.value], source[at.value + 1..];
    var inner := source;
    if obsolete {
      var validLeft := ValidObsIdLeftWithCfws(left);
      if !validLeft {
        return None;
      }
      var validRight := ValidObsIdRightWithCfws(right);
      if !validRight {
        return None;
      }
      var stripped := StripObsoleteMessageIdCfws(source);
      if stripped.None? {
        return None;
      }
      inner := stripped.value;
    } else if !ValidDotAtom(left) || !ValidIdRight(right) {
      return None;
    }
    var separator := MessageIdSeparator(inner);
    if separator.None? {
      return None;
    }
    var validLeft := ValidObsIdLeftScan(inner[..separator.value]);
    if !validLeft || !ValidIdRight(inner[separator.value + 1..]) {
      return None;
    }
    return Some("<" + inner + ">");
  }
}
