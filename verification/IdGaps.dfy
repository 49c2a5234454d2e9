// Comments and blanks as the grammar writes them: the scanners pass over them,
// stripping erases them, and the quoting automaton sees nothing in them
// (sections 3.2.2 and 4.2 of RFC 5322, crates/notm-mail/src/rfc5322.rs).
module IdGaps {
  import opened MailText
  import opened IdScanners
  import opened IdGrammar
  import opened IdStripping
  import opened IdCanonical
  import opened IdPrinting

  // ---- Characters

  /** The characters of an atom are the listed ones. */
  lemma AtextIsListed(c: char)
    ensures IsAtext(c) <==> IsIdChar(c)
  {
  }

  lemma RunIsAtom(s: string)
    requires IsRun(s)
    ensures IsAtom(s)
  {
    forall k | 0 <= k < |s|
      ensures IsAtext(s[k])
    {
      AtextIsListed(s[k]);
    }
    hide IsAtext, IsIdChar;
  }

  lemma {:induction false} AtomIsWhole(s: string)
    requires IsAtom(s)
    ensures AtomLength(s) == |s|
    decreases |s|
  {
    hide IsAtext;
    assert IsAtext(s[0]);
    if |s| > 1 {
      AtomIsWhole(s[1..]);
    }
  }

  // ---- Comments and gaps

  predicate IsGapStart(c: char) {
    c == ' ' || c == '\t' || c == '('
  }

  lemma {:induction false} CommentIsSkipped(v: string, i: nat, comment: Comment, depth: nat, rest: string)
    requires i <= |v| && v[i..] == CommentText(comment) + rest && IsComment(comment) && depth > 0
    ensures i + |CommentText(comment)| <= |v|
    ensures CommentEnd(v, i, depth) == CommentEnd(v, i + |CommentText(comment)|, depth)
    decreases comment
  {
    hide *;
    CommentTextUnfolds(comment);
    match comment {
      case End =>
      case Plain(c, more) =>
        FrontIs(v, i, [c], CommentText(more), rest);
        CharIsSkipped(v, i, c, depth);
        CommentIsSkipped(v, i + 1, more, depth, rest);
      case Escaped(c, more) =>
        FrontIs(v, i, ['\\', c], CommentText(more), rest);
        PairIsSkipped(v, i, c, depth);
        CommentIsSkipped(v, i + 2, more, depth, rest);
      case Nested(inner, more) =>
        NestedStands(v, i, CommentText(inner), CommentText(more), rest);
        BracketsAreSkipped(v, i, depth);
        var close := i + 1 + |CommentText(inner)|;
        CommentIsSkipped(v, i + 1, inner, depth + 1, ")" + (CommentText(more) + rest));
        BracketsAreSkipped(v, close, depth + 1);
        CommentIsSkipped(v, close + 1, more, depth, rest);
    }
  }

  lemma CharIsSkipped(v: string, i: nat, c: char, depth: nat)
    requires i < |v| && v[i] == c && IsCommentChar(c) && c != '(' && c != ')' && c != '\\' && depth > 0
    ensures CommentEnd(v, i, depth) == CommentEnd(v, i + 1, depth)
  {
  }

  lemma PairIsSkipped(v: string, i: nat, c: char, depth: nat)
    requires i + 1 < |v| && v[i] == '\\' && v[i + 1] == c && IsCommentChar(c) && depth > 0
    ensures CommentEnd(v, i, depth) == CommentEnd(v, i + 2, depth)
  {
  }

  lemma BracketsAreSkipped(v: string, i: nat, depth: nat)
    requires i < |v| && depth > 0
    ensures v[i] == '(' ==> CommentEnd(v, i, depth) == CommentEnd(v, i + 1, depth + 1)
    ensures v[i] == ')' ==> CommentEnd(v, i, depth) == CommentEnd(v, i + 1, depth - 1)
  {
  }

  /** Where the brackets of something nested stand, and what is between and after them. */
  lemma NestedStands(v: string, i: nat, inner: string, more: string, rest: string)
    requires i <= |v| && v[i..] == ("(" + (inner + (")" + more))) + rest
    ensures var close := i + 1 + |inner|;
      && close < |v| && v[i] == '(' && v[close] == ')'
      && v[i + 1..] == inner + (")" + (more + rest)) && v[close + 1..] == more + rest
  {
    var tail := ")" + (more + rest);
    Regroup(inner, ")", more, rest);
    FrontIs(v, i, "(", inner + (")" + more), rest);
    PieceAt(v, i + 1, inner, tail);
    var close := i + 1 + |inner|;
    assert v[close] == v[close..][0] == tail[0];
    assert v[close + 1..] == v[close..][1..] == tail[1..];
  }

  lemma CommentTextUnfolds(comment: Comment)
    requires IsComment(comment)
    ensures CommentText(comment) ==
      match comment
      case End => ""
      case Plain(c, rest) => [c] + CommentText(rest)
      case Escaped(c, rest) => ['\\', c] + CommentText(rest)
      case Nested(inner, rest) => "(" + (CommentText(inner) + (")" + CommentText(rest)))
    ensures match comment
      case End => true
      case Plain(c, rest) => IsCommentChar(c) && c != '(' && c != ')' && c != '\\' && IsComment(rest)
      case Escaped(c, rest) => IsCommentChar(c) && IsComment(rest)
      case Nested(inner, rest) => IsComment(inner) && IsComment(rest)
  {
  }

  /** The front of a text, when its printed form continues. */
  lemma FrontIs(v: string, i: nat, front: string, more: string, rest: string)
    requires i <= |v| && v[i..] == (front + more) + rest
    ensures i + |front| <= |v| && v[i + |front|..] == more + rest
    ensures forall k | 0 <= k < |front| :: v[i + k] == front[k]
  {
    assert (front + more) + rest == front + (more + rest);
    assert forall k | 0 <= k < |front| :: v[i + k] == v[i..][k];
    assert v[i + |front|..] == v[i..][|front|..];
  }

  lemma Regroup(a: string, b: string, c: string, d: string)
    ensures (a + (b + c)) + d == a + (b + (c + d))
  {
  }

  lemma GapTextUnfolds(gap: Gap)
    requires IsGap(gap)
    ensures GapText(gap) ==
      match gap
      case NoGap => ""
      case Blank(c, more) => [c] + GapText(more)
      case Remark(comment, more) => "(" + (CommentText(comment) + (")" + GapText(more)))
    ensures match gap
      case NoGap => true
      case Blank(c, more) => IsWsp(c) && IsGap(more)
      case Remark(comment, more) => IsComment(comment) && IsGap(more)
  {
  }

  /** Comments and blanks are passed over, and so is whatever of them follows. */
  lemma {:induction false} GapIsSkipped(v: string, i: nat, gap: Gap, rest: string)
    requires i <= |v| && v[i..] == GapText(gap) + rest && IsGap(gap)
    ensures i + |GapText(gap)| <= |v| && CfwsEnd(v, i) == CfwsEnd(v, i + |GapText(gap)|)
    decreases gap
  {
    hide *;
    GapTextUnfolds(gap);
    match gap {
      case NoGap =>
      case Blank(c, more) =>
        OneBlankIsSkipped(v, i, c, GapText(more), rest);
        GapIsSkipped(v, i + 1, more, rest);
      case Remark(comment, more) =>
        OneRemarkIsSkipped(v, i, comment, GapText(more), rest);
        GapIsSkipped(v, i + |CommentText(comment)| + 2, more, rest);
    }
  }

  lemma OneBlankIsSkipped(v: string, i: nat, c: char, more: string, rest: string)
    requires i <= |v| && v[i..] == ([c] + more) + rest && IsWsp(c)
    ensures i < |v| && v[i + 1..] == more + rest && CfwsEnd(v, i) == CfwsEnd(v, i + 1)
  {
    hide *;
    FrontIs(v, i, [c], more, rest);
    assert v[i + 0] == c;
    CfwsUnfolds(v, i);
  }

  lemma OneRemarkIsSkipped(v: string, i: nat, comment: Comment, more: string, rest: string)
    requires i <= |v| && v[i..] == ("(" + (CommentText(comment) + (")" + more))) + rest && IsComment(comment)
    ensures var next := i + |CommentText(comment)| + 2;
      next <= |v| && v[next..] == more + rest && CfwsEnd(v, i) == CfwsEnd(v, next)
  {
    hide *;
    NestedStands(v, i, CommentText(comment), more, rest);
    var close := i + 1 + |CommentText(comment)|;
    CommentIsSkipped(v, i + 1, comment, 1, ")" + (more + rest));
    BracketsAreSkipped(v, close, 1);
    CommentUnfolds(v, close + 1, 0);
    BracketIsNoBlank(v, i);
    CfwsUnfolds(v, i);
  }

  lemma BracketIsNoBlank(v: string, i: nat)
    requires i < |v| && v[i] == '('
    ensures !IsWsp(v[i])
  {
  }

  predicate StartsWord(rest: string) {
    rest == "" || !IsGapStart(rest[0])
  }

  lemma GapEnds(v: string, i: nat, gap: Gap, rest: string)
    requires i <= |v| && v[i..] == GapText(gap) + rest && IsGap(gap) && StartsWord(rest)
    ensures i + |GapText(gap)| <= |v| && v[i + |GapText(gap)|..] == rest
    ensures CfwsEnd(v, i) == Some(i + |GapText(gap)|)
  {
    hide GapText, IsGap, CfwsEnd;
    GapIsSkipped(v, i, gap, rest);
    PieceAt(v, i, GapText(gap), rest);
    var end := i + |GapText(gap)|;
    assert rest != "" ==> v[end] == v[end..][0] == rest[0];
    CfwsUnfolds(v, end);
  }

  lemma {:induction false} CommentStrips(comment: Comment, depth: nat, out: string, rest: string)
    requires IsComment(comment) && depth > 0
    ensures StripRun(Live(false, false, false, depth, out), CommentText(comment) + rest)
         == StripRun(Live(false, false, false, depth, out), rest)
    decreases comment
  {
    hide *;
    CommentTextUnfolds(comment);
    var s := Live(false, false, false, depth, out);
    match comment {
      case End =>
        assert "" + rest == rest;
      case Plain(c, more) =>
        StripsFront(s, [c], CommentText(more), rest);
        StripsCommentChar(depth, out, c);
        CommentStrips(more, depth, out, rest);
      case Escaped(c, more) =>
        StripsFront(s, ['\\', c], CommentText(more), rest);
        StripsCommentPair(depth, out, c);
        CommentStrips(more, depth, out, rest);
      case Nested(inner, more) =>
        StripsFront(s, "(", CommentText(inner) + (")" + CommentText(more)), rest);
        Regroup(CommentText(inner), ")", CommentText(more), rest);
        StripsBrackets(depth, out);
        CommentStrips(inner, depth + 1, out, ")" + (CommentText(more) + rest));
        StripRunConcat(Live(false, false, false, depth + 1, out), ")", CommentText(more) + rest);
        CommentStrips(more, depth, out, rest);
    }
  }

  lemma StripsFront(s: StripState, front: string, more: string, rest: string)
    ensures StripRun(s, (front + more) + rest) == StripRun(StripRun(s, front), more + rest)
  {
    hide *;
    assert (front + more) + rest == front + (more + rest);
    StripRunConcat(s, front, more + rest);
  }

  lemma StripsOne(s: StripState, c: char)
    ensures StripRun(s, [c]) == StripStep(s, c)
  {
    assert [c][1..] == "";
    hide StripStep;
  }

  lemma StripsTwo(s: StripState, c: char, d: char)
    ensures StripRun(s, [c, d]) == StripStep(StripStep(s, c), d)
  {
    assert [c, d][1..] == [d];
    StripsOne(StripStep(s, c), d);
    hide StripStep;
  }

  lemma StripsCommentChar(depth: nat, out: string, c: char)
    requires IsCommentChar(c) && c != '(' && c != ')' && c != '\\' && depth > 0
    ensures var s := Live(false, false, false, depth, out);
      StripRun(s, [c]) == s
  {
    StripsOne(Live(false, false, false, depth, out), c);
  }

  lemma StripsCommentPair(depth: nat, out: string, c: char)
    requires IsCommentChar(c) && depth > 0
    ensures var s := Live(false, false, false, depth, out);
      StripRun(s, ['\\', c]) == s
  {
    StripsTwo(Live(false, false, false, depth, out), '\\', c);
  }

  lemma StripsBrackets(depth: nat, out: string)
    ensures StripRun(Live(false, false, false, depth, out), "(") == Live(false, false, false, depth + 1, out)
    ensures StripRun(Live(false, false, false, depth + 1, out), ")") == Live(false, false, false, depth, out)
  {
    StripsOne(Live(false, false, false, depth, out), '(');
    StripsOne(Live(false, false, false, depth + 1, out), ')');
  }

  lemma {:induction false} GapStrips(gap: Gap, out: string, rest: string)
    requires IsGap(gap)
    ensures StripRun(Bare(out), GapText(gap) + rest) == StripRun(Bare(out), rest)
    decreases gap
  {
    hide *;
    GapTextUnfolds(gap);
    match gap {
      case NoGap =>
        assert "" + rest == rest;
      case Blank(c, more) =>
        StripsFront(Bare(out), [c], GapText(more), rest);
        StripsBlank(out, c);
        GapStrips(more, out, rest);
      case Remark(comment, more) =>
        StripsFront(Bare(out), "(", CommentText(comment) + (")" + GapText(more)), rest);
        Regroup(CommentText(comment), ")", GapText(more), rest);
        StripsBrackets(0, out);
        BareIs(out);
        CommentStrips(comment, 1, out, ")" + (GapText(more) + rest));
        StripRunConcat(Live(false, false, false, 1, out), ")", GapText(more) + rest);
        GapStrips(more, out, rest);
    }
  }

  lemma BareIs(out: string)
    ensures Bare(out) == Live(false, false, false, 0, out)
  {
  }

  lemma StripsBlank(out: string, c: char)
    requires IsWsp(c)
    ensures StripRun(Bare(out), [c]) == Bare(out)
  {
    StripsOne(Bare(out), c);
  }

  // ---- Gaps are inert

  /** Inside a comment the automaton stays at least so deep. */
  ghost predicate StaysDeep(text: string, depth: nat) {
    && LexRun(Lex(false, false, false, depth), text) == Lex(false, false, false, depth)
    && forall k | 0 <= k <= |text| :: LexRun(Lex(false, false, false, depth), text[..k]).depth >= depth
  }

  lemma DeepConcat(a: string, b: string, depth: nat)
    requires StaysDeep(a, depth) && StaysDeep(b, depth)
    ensures StaysDeep(a + b, depth)
  {
    var s := Lex(false, false, false, depth);
    hide LexRun;
    LexRunConcat(s, a, b);
    forall k | 0 <= k <= |a + b|
      ensures LexRun(s, (a + b)[..k]).depth >= depth
    {
      if k <= |a| {
        assert (a + b)[..k] == a[..k];
      } else {
        assert (a + b)[..k] == a + b[..k - |a|];
        LexRunConcat(s, a, b[..k - |a|]);
      }
    }
  }

  lemma LexOne(s: Lex, c: char)
    ensures LexRun(s, [c]) == LexStep(s, c)
  {
    assert [c][..0] == "";
    hide LexStep;
  }

  lemma LexTwo(s: Lex, c: char, d: char)
    ensures LexRun(s, [c, d]) == LexStep(LexStep(s, c), d)
  {
    assert [c, d][..1] == [c];
    LexOne(s, c);
    hide LexStep;
  }

  lemma DeepChar(c: char, depth: nat)
    requires c != '(' && c != ')' && c != '\\' && depth > 0
    ensures StaysDeep([c], depth)
  {
    var s := Lex(false, false, false, depth);
    LexOne(s, c);
    assert [c][..0] == "" && [c][..1] == [c];
  }

  lemma DeepPair(c: char, depth: nat)
    requires depth > 0
    ensures StaysDeep(['\\', c], depth)
  {
    var s := Lex(false, false, false, depth);
    LexOne(s, '\\');
    LexTwo(s, '\\', c);
    var text := ['\\', c];
    assert text[..0] == "" && text[..1] == ['\\'] && text[..2] == text;
  }

  /** Brackets around a text that stays one deeper. */
  lemma DeepBrackets(inner: string, depth: nat)
    requires StaysDeep(inner, depth + 1)
    ensures StaysDeep("(" + inner + ")", depth)
    ensures forall k | 0 < k <= |inner| + 1 ::
      LexRun(Lex(false, false, false, depth), ("(" + inner + ")")[..k]).depth > depth
  {
    var s := Lex(false, false, false, depth);
    var text := "(" + inner + ")";
    hide LexRun;
    LexOpens(depth);
    LexCloses(depth);
    LexRunConcat(s, "(", inner);
    LexRunConcat(s, "(" + inner, ")");
    assert text[..0] == "" && text[..|text|] == text;
    LexNothing(s);
    forall k | 0 < k <= |inner| + 1
      ensures LexRun(s, text[..k]).depth > depth
    {
      assert text[..k] == "(" + inner[..k - 1];
      LexRunConcat(s, "(", inner[..k - 1]);
    }
    forall k | 0 <= k <= |text|
      ensures LexRun(s, text[..k]).depth >= depth
    {
    }
  }

  lemma LexNothing(s: Lex)
    ensures LexRun(s, "") == s
  {
  }

  lemma LexOpens(depth: nat)
    ensures LexRun(Lex(false, false, false, depth), "(") == Lex(false, false, false, depth + 1)
  {
    LexOne(Lex(false, false, false, depth), '(');
  }

  lemma LexCloses(depth: nat)
    ensures LexRun(Lex(false, false, false, depth + 1), ")") == Lex(false, false, false, depth)
  {
    LexOne(Lex(false, false, false, depth + 1), ')');
  }

  lemma {:induction false} CommentStaysDeep(comment: Comment, depth: nat)
    requires IsComment(comment) && depth > 0
    ensures StaysDeep(CommentText(comment), depth)
    decreases comment
  {
    hide *;
    CommentTextUnfolds(comment);
    match comment {
      case End =>
        DeepNothing(depth);
      case Plain(c, more) =>
        DeepChar(c, depth);
        CommentStaysDeep(more, depth);
        DeepConcat([c], CommentText(more), depth);
      case Escaped(c, more) =>
        DeepPair(c, depth);
        CommentStaysDeep(more, depth);
        DeepConcat(['\\', c], CommentText(more), depth);
      case Nested(inner, more) =>
        CommentStaysDeep(inner, depth + 1);
        CommentStaysDeep(more, depth);
        DeepBrackets(CommentText(inner), depth);
        DeepConcat("(" + CommentText(inner) + ")", CommentText(more), depth);
        Bracketed(CommentText(inner), CommentText(more));
    }
  }

  lemma DeepNothing(depth: nat)
    ensures StaysDeep("", depth)
  {
    assert ""[..0] == "";
  }

  lemma Bracketed(inner: string, more: string)
    ensures "(" + (inner + (")" + more)) == ("(" + inner + ")") + more
  {
  }

  lemma BracketsAreInert(inner: string)
    requires StaysDeep(inner, 1)
    ensures Inert("(" + inner + ")")
  {
    hide LexRun;
    var text := "(" + inner + ")";
    DeepBrackets(inner, 0);
    assert text[..|text|] == text;
    EnclosedIsInert(text);
  }

  lemma {:induction false} GapIsInert(gap: Gap)
    requires IsGap(gap)
    ensures Inert(GapText(gap))
    decreases gap
  {
    hide *;
    GapTextUnfolds(gap);
    match gap {
      case NoGap =>
        NothingIsInert();
      case Blank(c, more) =>
        BlankIsInert(c);
        GapIsInert(more);
        InertConcat([c], GapText(more));
      case Remark(comment, more) =>
        CommentStaysDeep(comment, 1);
        BracketsAreInert(CommentText(comment));
        GapIsInert(more);
        InertConcat("(" + CommentText(comment) + ")", GapText(more));
        Bracketed(CommentText(comment), GapText(more));
    }
  }

  lemma NothingIsInert()
    ensures Inert("")
  {
    PlainTextIsInert("");
  }

  lemma BlankIsInert(c: char)
    requires IsWsp(c)
    ensures Inert([c])
  {
    CharHides(c, '@');
    CharHides(c, '>');
  }
}
