// Stripping preserves the grammar: what the obsolete validators accept becomes,
// without its comments and white space, what the canonical validators accept,
// and canonical text is left alone.
module IdStripping {
  import opened MailText
  import opened IdScanners
  import opened IdGrammar

  // ---- Words

  lemma {:induction false} QuotedIsKept(s: string, escaped: bool, out: string)
    requires QuotedLength(s, escaped) != 0
    ensures var n := QuotedLength(s, escaped);
      StripRun(Live(true, false, escaped, 0, out), s) == StripRun(Bare(out + s[..n]), s[n..])
    decreases |s|
  {
    var n := QuotedLength(s, escaped);
    var s' := StripStep(Live(true, false, escaped, 0, out), s[0]);
    if !escaped && s[0] == '"' {
      assert s[..1] == [s[0]];
    } else {
      QuotedIsKept(s[1..], s'.escaped, out + [s[0]]);
      assert out + [s[0]] + s[1..][..n - 1] == out + s[..n];
      assert s[1..][n - 1..] == s[n..];
    }
  }

  lemma {:induction false} AtomIsKept(s: string, n: nat, out: string)
    requires n <= AtomLength(s)
    ensures StripRun(Bare(out), s) == StripRun(Bare(out + s[..n]), s[n..])
    decreases n
  {
    hide IsAtext;
    if n == 0 {
      assert out + s[..0] == out;
    } else {
      AtextIsOrdinary(s[0]);
      AtomIsKept(s[1..], n - 1, out + [s[0]]);
      assert out + [s[0]] + s[1..][..n - 1] == out + s[..n];
      assert s[1..][n - 1..] == s[n..];
    }
  }

  lemma WordIsKept(s: string, out: string)
    requires WordLength(s) != 0
    ensures var n := WordLength(s);
      StripRun(Bare(out), s) == StripRun(Bare(out + s[..n]), s[n..])
  {
    var n := WordLength(s);
    if s[0] == '"' {
      QuotedIsKept(s[1..], false, out + [s[0]]);
      assert out + [s[0]] + s[1..][..n - 1] == out + s[..n];
      assert s[1..][n - 1..] == s[n..];
    } else {
      AtomIsKept(s, n, out);
    }
  }

  lemma {:induction false} QuotedEndsAlike(s: string, escaped: bool, rest: string)
    requires QuotedLength(s, escaped) != 0
    ensures var n := QuotedLength(s, escaped);
      QuotedLength(s[..n] + rest, escaped) == n
    decreases |s|
  {
    var n := QuotedLength(s, escaped);
    var t := s[..n] + rest;
    assert t[0] == s[0];
    if escaped || s[0] != '"' {
      var escaped' := !escaped && s[0] == '\\';
      QuotedEndsAlike(s[1..], escaped', rest);
      assert t[1..] == s[1..][..n - 1] + rest;
    }
  }

  lemma {:induction false} AtomEndsAlike(s: string, n: nat, rest: string)
    requires n <= AtomLength(s) && (rest == "" || !IsAtext(rest[0]))
    ensures AtomLength(s[..n] + rest) == n
    decreases n
  {
    var t := s[..n] + rest;
    if n > 0 {
      AtomEndsAlike(s[1..], n - 1, rest);
      assert t[1..] == s[1..][..n - 1] + rest;
    } else {
      assert t == rest;
    }
  }

  /** A word ends where it did, whatever dot or end follows it. */
  lemma WordEndsAlike(s: string, rest: string)
    requires WordLength(s) != 0 && (rest == "" || rest[0] == '.')
    ensures WordLength(s[..WordLength(s)] + rest) == WordLength(s)
  {
    var n := WordLength(s);
    var t := s[..n] + rest;
    assert t[0] == s[0];
    if s[0] == '"' {
      QuotedEndsAlike(s[1..], false, rest);
      assert t[1..] == s[1..][..n - 1] + rest;
    } else {
      AtomEndsAlike(s, n, rest);
    }
  }

  // ---- The left half

  lemma LeftJoin(word: string, left: string)
    requires WordLength(word) == |word| != 0 && ValidObsIdLeft(left)
    ensures ValidObsIdLeft(word + "." + left)
  {
    var s := word + "." + left;
    assert word[..|word|] == word;
    assert word + ("." + left) == s;
    WordEndsAlike(word, "." + left);
    assert s[|word| + 1..] == left;
  }

  lemma ObsWordStrips(v: string, i: nat, out: string) returns (word: string)
    requires i <= |v| && ObsWordEnd(v, i).Some?
    ensures WordLength(word) == |word| != 0
    ensures StripRun(Bare(out), v[i..]) == StripRun(Bare(out + word), v[ObsWordEnd(v, i).value..])
  {
    hide *;
    var start, length := ObsWordUnfolds(v, i);
    word := v[start..][..length];
    CfwsIsErased(v, i, out);
    WordIsKept(v[start..], out);
    assert v[start..][length..] == v[start + length..];
    CfwsIsErased(v, start + length, out + word);
    WordEndsAlike(v[start..], "");
    assert word + "" == word;
  }

  lemma ObsWordUnfolds(v: string, i: nat) returns (start: nat, length: nat)
    requires i <= |v| && ObsWordEnd(v, i).Some?
    ensures CfwsEnd(v, i) == Some(start) && start + length <= |v|
    ensures length == WordLength(v[start..]) != 0
    ensures CfwsEnd(v, start + length) == ObsWordEnd(v, i) && ObsWordEnd(v, i).value <= |v|
  {
    hide CfwsEnd, WordLength;
    start := CfwsEnd(v, i).value;
    length := WordLength(v[start..]);
  }

  lemma DotIsKept(v: string, i: nat, out: string)
    requires i < |v| && v[i] == '.'
    ensures StripRun(Bare(out), v[i..]) == StripRun(Bare(out + "."), v[i + 1..])
  {
    assert v[i..][1..] == v[i + 1..];
  }

  lemma WordIsLeft(word: string)
    requires WordLength(word) == |word| != 0
    ensures ValidObsIdLeft(word)
  {
  }

  lemma StripNothing(v: string, s: StripState)
    ensures StripRun(s, v[|v|..]) == s
  {
  }

  lemma {:induction false} LeftStrips(v: string, i: nat, out: string) returns (left: string)
    requires i <= |v| && ValidLeftWithCfws(v, i)
    ensures ValidObsIdLeft(left)
    ensures StripRun(Bare(out), v[i..]) == Bare(out + left)
    decreases |v| - i
  {
    hide ObsWordEnd, WordLength, StripRun, ValidObsIdLeft;
    var end := ObsWordEnd(v, i).value;
    var word := ObsWordStrips(v, i, out);
    if end == |v| {
      WordIsLeft(word);
      StripNothing(v, Bare(out + word));
      left := word;
    } else {
      DotIsKept(v, end, out + word);
      var rest := LeftStrips(v, end + 1, out + word + ".");
      LeftJoin(word, rest);
      left := word + "." + rest;
      assert out + word + "." + rest == out + left;
    }
  }

  // ---- The right half

  ghost predicate IsAtom(s: string) {
    s != "" && forall k | 0 <= k < |s| :: IsAtext(s[k])
  }

  /** A dot-atom, and so no domain literal. */
  ghost predicate IsDomain(s: string) {
    ValidDotAtom(s) && s[0] != '['
  }

  lemma AtomIsDomain(atom: string)
    requires IsAtom(atom)
    ensures IsDomain(atom)
  {
  }

  lemma DomainJoin(atom: string, rest: string)
    requires IsAtom(atom) && IsDomain(rest)
    ensures IsDomain(atom + "." + rest)
  {
  }

  lemma ObsAtomStrips(v: string, i: nat, out: string) returns (atom: string)
    requires i <= |v| && ObsAtomEnd(v, i).Some?
    ensures IsAtom(atom)
    ensures StripRun(Bare(out), v[i..]) == StripRun(Bare(out + atom), v[ObsAtomEnd(v, i).value..])
  {
    hide AtomLength, StripRun, CfwsEnd, ObsAtomEnd, IsAtext;
    var start, length := ObsAtomUnfolds(v, i);
    atom := v[start..][..length];
    CfwsIsErased(v, i, out);
    AtomIsKept(v[start..], length, out);
    AtomIsMaximal(v[start..]);
    assert v[start..][length..] == v[start + length..];
    CfwsIsErased(v, start + length, out + atom);
  }

  lemma ObsAtomUnfolds(v: string, i: nat) returns (start: nat, length: nat)
    requires i <= |v| && ObsAtomEnd(v, i).Some?
    ensures CfwsEnd(v, i) == Some(start) && start + length <= |v|
    ensures length == AtomLength(v[start..]) != 0
    ensures CfwsEnd(v, start + length) == ObsAtomEnd(v, i)
  {
    hide CfwsEnd, AtomLength;
    start := CfwsEnd(v, i).value;
    length := AtomLength(v[start..]);
  }

  lemma {:induction false} DomainStrips(v: string, i: nat, out: string) returns (domain: string)
    requires i <= |v| && ValidDomainWithCfws(v, i)
    ensures IsDomain(domain)
    ensures StripRun(Bare(out), v[i..]) == Bare(out + domain)
    decreases |v| - i
  {
    hide ObsAtomEnd, StripRun, IsAtom, IsDomain;
    var end := ObsAtomEnd(v, i).value;
    var atom := ObsAtomStrips(v, i, out);
    if end == |v| {
      StripNothing(v, Bare(out + atom));
      AtomIsDomain(atom);
      domain := atom;
    } else {
      DotIsKept(v, end, out + atom);
      var rest := DomainStrips(v, end + 1, out + atom + ".");
      DomainJoin(atom, rest);
      domain := atom + "." + rest;
      assert out + atom + "." + rest == out + domain;
    }
  }

  lemma {:induction false} LiteralStrips(v: string, i: nat, hasContent: bool, out: string) returns (content: string)
    requires i <= |v| && ValidLiteralWithCfws(v, i, hasContent)
    ensures ValidLiteralContent(content) && (hasContent || content != "")
    ensures StripRun(Live(false, true, false, 0, out), v[i..]) == Bare(out + content + "]")
    decreases |v| - i
  {
    assert v[i..][1..] == v[i + 1..];
    if v[i] == ']' {
      content := "";
      CfwsIsErased(v, i + 1, out + "]");
      assert out + content + "]" == out + "]";
    } else if IsWsp(v[i]) {
      content := LiteralStrips(v, i + 1, hasContent, out);
    } else if v[i] == '\\' {
      assert v[i + 1..][1..] == v[i + 2..];
      var rest := LiteralStrips(v, i + 2, true, out + [v[i]] + [v[i + 1]]);
      content := [v[i], v[i + 1]] + rest;
      assert content[2..] == rest;
      assert out + [v[i]] + [v[i + 1]] + rest + "]" == out + content + "]";
    } else {
      var rest := LiteralStrips(v, i + 1, true, out + [v[i]]);
      content := [v[i]] + rest;
      assert content[1..] == rest;
      assert out + [v[i]] + rest + "]" == out + content + "]";
    }
  }

  lemma RightStrips(v: string, out: string) returns (right: string)
    requires ValidRightWithCfws(v)
    ensures ValidIdRight(right)
    ensures StripRun(Bare(out), v) == Bare(out + right)
  {
    var start := CfwsEnd(v, 0).value;
    assert v[0..] == v;
    if start < |v| && v[start] == '[' {
      CfwsIsErased(v, 0, out);
      assert v[start..][1..] == v[start + 1..];
      var content := LiteralStrips(v, start + 1, false, out + "[");
      right := "[" + content + "]";
      assert right[1..|right| - 1] == content;
      assert out + "[" + content + "]" == out + right;
    } else {
      right := DomainStrips(v, 0, out);
    }
  }

  /** Stripping preserves the grammar. */
  lemma StrippingPreservesGrammar(left: string, right: string)
    returns (canonicalLeft: string, canonicalRight: string)
    requires ValidLeftWithCfws(left, 0) && ValidRightWithCfws(right)
    ensures Stripped(left + "@" + right) == Some(canonicalLeft + "@" + canonicalRight)
    ensures ValidObsIdLeft(canonicalLeft) && ValidIdRight(canonicalRight)
  {
    hide ValidObsIdLeft, ValidIdRight;
    assert left[0..] == left;
    canonicalLeft := LeftStrips(left, 0, "");
    assert "" + canonicalLeft == canonicalLeft;
    StripRunConcat(Bare(""), left, "@" + right);
    assert left + ("@" + right) == left + "@" + right;
    assert ("@" + right)[1..] == right;
    canonicalRight := RightStrips(right, canonicalLeft + "@");
  }
}
