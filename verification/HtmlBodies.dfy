// Which of its parts a message shows as HTML: the body of every kind of container
// in terms of its children's, and of every leaf in terms of its fields
// (crates/notm-mail/src/mime.rs).
module HtmlBodies {
  import opened MailText
  import opened MimeTree
  import opened CidScopes

  /** The characters of the Unicode property White_Space. */
  const WHITE_SPACE: string :=
    "\t\n\U{0B}\U{0C}\r \U{85}\U{A0}\U{1680}\U{2000}\U{2001}\U{2002}\U{2003}\U{2004}\U{2005}\U{2006}"
    + "\U{2007}\U{2008}\U{2009}\U{200A}\U{2028}\U{2029}\U{202F}\U{205F}\U{3000}"

  lemma WhitespaceIsListed(c: char)
    ensures IsWhitespace(c) <==> c in WHITE_SPACE
  {
  }

  /** The HTML a part shows, if any; attachment numbers have no influence on it. */
  function HtmlOf(part: Part, named: bool): Option<string> {
    SelectedHtml(part, named, 0).html
  }

  lemma AppendedTexts(a: HtmlBody, b: HtmlBody, other: HtmlBody, another: HtmlBody)
    requires a.html == b.html && other.html == another.html
    ensures Appended(a, other).html == Appended(b, another).html
  {
    hide IsBlank, ByteLength, Extended, Shifted, ScopesOf;
  }

  lemma {:induction false} StartIsIrrelevant(part: Part, named: bool, start: nat, from: nat)
    ensures SelectedHtml(part, named, start).html == SelectedHtml(part, named, from).html
    decreases part, 1
  {
    hide ChildHtml, LastHtml, JoinedHtml, IsAttachmentLike, IsExplicitAttachment, KindOf, RelatedRoot, WithSiblings;
    if part.children != [] {
      RootIsAChild(part);
      StartIsIrrelevantBelow(part, named, start, from, |part.children|);
    }
  }

  lemma {:induction false} StartIsIrrelevantBelow(part: Part, named: bool, start: nat, from: nat, n: nat)
    requires n <= |part.children|
    ensures forall c | 0 <= c < n :: ChildHtml(part, named, start, c).html == ChildHtml(part, named, from, c).html
    ensures LastHtml(part, named, start, n).html == LastHtml(part, named, from, n).html
    ensures JoinedHtml(part, named, start, n).html == JoinedHtml(part, named, from, n).html
    decreases part, 0, n
  {
    hide SelectedHtml, Appended, ChildStart;
    if n > 0 {
      StartIsIrrelevantBelow(part, named, start, from, n - 1);
      StartIsIrrelevant(part.children[n - 1], NamedBodyAllowedForChild(part, named, n - 1),
                        ChildStart(part, named, start, n - 1), ChildStart(part, named, from, n - 1));
      AppendedTexts(JoinedHtml(part, named, start, n - 1), JoinedHtml(part, named, from, n - 1),
                    ChildHtml(part, named, start, n - 1), ChildHtml(part, named, from, n - 1));
    }
  }

  lemma ChildShows(part: Part, named: bool, start: nat, c: nat)
    requires c < |part.children|
    ensures ChildHtml(part, named, start, c).html
         == HtmlOf(part.children[c], NamedBodyAllowedForChild(part, named, c))
  {
    hide SelectedHtml, NamedBodyAllowedForChild, ChildStart;
    StartIsIrrelevant(part.children[c], NamedBodyAllowedForChild(part, named, c),
                      ChildStart(part, named, start, c), 0);
  }

  // ---- Leaves

  /** Shown in place: not disposed as an attachment, and a name makes it none. */
  predicate IsInline(part: Part, named: bool) {
    !part.disposedAsAttachment && (part.filename.None? || named)
  }

  /** A leaf shows HTML exactly when it is readable HTML in place and no part of
      cryptography. */
  lemma LeafShows(part: Part, named: bool, text: string)
    requires part.children == []
    ensures HtmlOf(part, named) == Some(text) <==>
      && part.mimetype == "text/html" && IsInline(part, named) && !part.cryptoRelated && part.body == Text(text)
  {
  }

  // ---- Alternatives

  lemma {:induction false} LastStands(part: Part, named: bool, start: nat, n: nat, c: nat)
    requires c < n <= |part.children| && ChildHtml(part, named, start, c).html.Some?
    requires forall d | c < d < n :: ChildHtml(part, named, start, d).html.None?
    ensures LastHtml(part, named, start, n) == ChildHtml(part, named, start, c)
    decreases n
  {
    hide ChildHtml;
    if c < n - 1 {
      LastStands(part, named, start, n - 1, c);
    }
  }

  lemma {:induction false} NoneIsLast(part: Part, named: bool, start: nat, n: nat)
    requires n <= |part.children| && forall d | 0 <= d < n :: ChildHtml(part, named, start, d).html.None?
    ensures LastHtml(part, named, start, n) == NO_HTML
    decreases n
  {
    hide ChildHtml;
    if n > 0 {
      NoneIsLast(part, named, start, n - 1);
    }
  }

  /** The most faithful alternative is shown: the last child with HTML, whose body
      and scopes become the container's. */
  lemma AlternativeShowsTheLast(part: Part, named: bool, start: nat, c: nat)
    requires part.mimetype == "multipart/alternative" && IsInline(part, named) && c < |part.children|
    requires HtmlOf(part.children[c], true).Some?
    requires forall d | c < d < |part.children| :: HtmlOf(part.children[d], true).None?
    ensures HtmlOf(part, named) == HtmlOf(part.children[c], true)
    ensures SelectedHtml(part, named, start) == SelectedHtml(part.children[c], true, ChildStart(part, named, start, c))
  {
    forall d | c <= d < |part.children|
      ensures ChildHtml(part, named, start, d).html == HtmlOf(part.children[d], true)
    {
      ChildShows(part, named, start, d);
    }
    LastStands(part, named, start, |part.children|, c);
    StartIsIrrelevant(part, named, start, 0);
    StartIsIrrelevant(part.children[c], true, ChildStart(part, named, start, c), 0);
    hide LastHtml, ChildStart;
  }

  /** Alternatives show HTML exactly when one of them does. */
  lemma AlternativeShowsAny(part: Part, named: bool)
    requires part.mimetype == "multipart/alternative" && IsInline(part, named) && part.children != []
    ensures HtmlOf(part, named).Some? <==>
      exists c :: 0 <= c < |part.children| && HtmlOf(part.children[c], true).Some?
  {
    var last := LastWithHtml(part, |part.children|);
    if last < |part.children| {
      AlternativeShowsTheLast(part, named, 0, last);
    } else {
      forall d | 0 <= d < |part.children|
        ensures ChildHtml(part, named, 0, d).html.None?
      {
        ChildShows(part, named, 0, d);
      }
      NoneIsLast(part, named, 0, |part.children|);
      hide LastHtml;
    }
  }

  /** The last of the first children with HTML, or none at all. */
  lemma {:induction false} LastWithHtml(part: Part, n: nat) returns (c: nat)
    requires n <= |part.children|
    ensures c < n || c == |part.children|
    ensures c < n ==> HtmlOf(part.children[c], true).Some?
    ensures forall d | 0 <= d < n && (c < d || c == |part.children|) :: HtmlOf(part.children[d], true).None?
    decreases n
  {
    hide HtmlOf;
    if n == 0 {
      c := |part.children|;
    } else if HtmlOf(part.children[n - 1], true).Some? {
      c := n - 1;
    } else {
      c := LastWithHtml(part, n - 1);
    }
  }

  // ---- Related, signed and encrypted containers

  /** The child the start parameter names first, or the first child if it names none. */
  ghost predicate IsRoot(part: Part, root: nat) {
    && root < |part.children|
    && if part.start.Some? && exists d :: 0 <= d < |part.children| && part.children[d].contentId == part.start
       then part.children[root].contentId == part.start
            && forall d | 0 <= d < root :: part.children[d].contentId != part.start
       else root == 0
  }

  lemma {:induction false} FirstWithIdIs(children: seq<Part>, id: string, from: nat)
    requires from <= |children| && forall d | 0 <= d < from :: children[d].contentId != Some(id)
    ensures var r := FirstWithId(children, id, from);
      if r < |children| && children[r].contentId == Some(id)
      then forall d | 0 <= d < r :: children[d].contentId != Some(id)
      else r == 0 && forall d | 0 <= d < |children| :: children[d].contentId != Some(id)
    decreases |children| - from
  {
    if from < |children| && children[from].contentId != Some(id) {
      FirstWithIdIs(children, id, from + 1);
    }
  }

  lemma RootIs(part: Part, root: nat)
    requires root < |part.children|
    ensures IsRoot(part, root) <==> RelatedRoot(part) == root
  {
    hide FirstWithId;
    if part.start.Some? {
      FirstWithIdIs(part.children, part.start.value, 0);
    }
  }

  lemma RelatedShowsItsRoot(part: Part, named: bool, root: nat)
    requires part.mimetype == "multipart/related" && IsInline(part, named) && IsRoot(part, root)
    ensures HtmlOf(part, named) == HtmlOf(part.children[root], named)
  {
    RootIs(part, root);
    ChildShows(part, named, 0, root);
    hide IsRoot, RelatedRoot, ChildHtml, ChildStart, SiblingIndexes, WithSiblings;
  }

  lemma SignedShowsItsFirst(part: Part, named: bool)
    requires part.mimetype == "multipart/signed" && IsInline(part, named) && part.children != []
    ensures HtmlOf(part, named) == HtmlOf(part.children[0], named)
  {
    ChildShows(part, named, 0, 0);
  }

  lemma SealedShowsNothing(part: Part, named: bool)
    requires part.mimetype == "multipart/encrypted" || !IsInline(part, named)
    ensures HtmlOf(part, named) == None
  {
  }

  // ---- Joined bodies

  /** Texts one after the other with an empty line between them. */
  function Separated(texts: seq<string>): string {
    if texts == [] then "" else if |texts| == 1 then texts[0] else texts[0] + ("\n\n" + Separated(texts[1..]))
  }

  lemma {:induction false} SeparatedGrows(texts: seq<string>, text: string)
    requires texts != []
    ensures Separated(texts + [text]) == Separated(texts) + "\n\n" + text
    decreases |texts|
  {
    var all := texts + [text];
    assert all[0] == texts[0] && all[1..] == texts[1..] + [text];
    if |texts| == 1 {
      assert all[1..] == [text];
      assert Separated(all) == texts[0] + ("\n\n" + text) == texts[0] + "\n\n" + text;
    } else {
      SeparatedGrows(texts[1..], text);
      var rest := Separated(texts[1..]);
      assert texts[0] + ("\n\n" + (rest + "\n\n" + text)) == texts[0] + ("\n\n" + rest) + "\n\n" + text;
    }
  }

  /** A child adds to a joined body: it has HTML, and not only blanks. */
  predicate Adds(part: Part, named: bool, c: nat)
    requires c < |part.children|
  {
    var html := HtmlOf(part.children[c], named && c == 0);
    html.Some? && !IsBlank(html.value)
  }

  predicate AllAdd(part: Part, named: bool, shown: seq<nat>) {
    forall k | 0 <= k < |shown| :: shown[k] < |part.children| && Adds(part, named, shown[k])
  }

  function TextOf(part: Part, named: bool, c: nat): string
    requires c < |part.children| && Adds(part, named, c)
  {
    HtmlOf(part.children[c], named && c == 0).value
  }

  function TextsOf(part: Part, named: bool, shown: seq<nat>): (texts: seq<string>)
    requires AllAdd(part, named, shown)
    ensures |texts| == |shown|
  {
    seq(|shown|, k requires 0 <= k < |shown| => TextOf(part, named, shown[k]))
  }

  /** The children, in their order, that add to the joined body of the first ones. */
  ghost predicate AreShown(part: Part, named: bool, n: nat, shown: seq<nat>) {
    && n <= |part.children| && AllAdd(part, named, shown)
    && (forall k | 0 <= k < |shown| :: shown[k] < n)
    && (forall j, k | 0 <= j < k < |shown| :: shown[j] < shown[k])
    && (forall c | 0 <= c < n && Adds(part, named, c) :: c in shown)
  }

  predicate IsJoining(part: Part) {
    part.mimetype !in
      ["multipart/alternative", "multipart/related", "multipart/signed", "multipart/encrypted"]
  }

  lemma JoiningKind(part: Part, named: bool, c: nat)
    requires IsJoining(part)
    ensures var kind := KindOf(part.mimetype);
      !kind.Alternative? && !kind.Related? && !kind.Signed? && !kind.Encrypted?
    ensures NamedBodyAllowedForChild(part, named, c) == (named && c == 0)
  {
  }

  lemma TextsGrow(part: Part, named: bool, n: nat, shown: seq<nat>)
    requires AreShown(part, named, n, shown) && n < |part.children| && Adds(part, named, n)
    ensures AreShown(part, named, n + 1, shown + [n])
    ensures TextsOf(part, named, shown + [n]) == TextsOf(part, named, shown) + [TextOf(part, named, n)]
  {
    hide Adds, TextOf;
  }

  lemma TextsStay(part: Part, named: bool, n: nat, shown: seq<nat>)
    requires AreShown(part, named, n, shown) && n < |part.children| && !Adds(part, named, n)
    ensures AreShown(part, named, n + 1, shown)
  {
    hide Adds;
  }

  lemma ShownAdd(part: Part, named: bool, n: nat, shown: seq<nat>)
    requires AreShown(part, named, n, shown)
    ensures AllAdd(part, named, shown)
  {
  }

  lemma NothingShown(part: Part, named: bool)
    ensures AreShown(part, named, 0, [])
  {
  }

  lemma AppendedText(body: HtmlBody, other: HtmlBody)
    ensures Appended(body, other).html ==
      if other.html.None? || IsBlank(other.html.value) then body.html
      else if body.html.None? || IsBlank(body.html.value) then other.html
      else Some(body.html.value + "\n\n" + other.html.value)
  {
    hide IsBlank, ByteLength, Extended, Shifted, ScopesOf;
  }

  lemma {:induction false} JoinedShows(part: Part, named: bool, n: nat) returns (shown: seq<nat>)
    requires n <= |part.children| && IsJoining(part)
    ensures AreShown(part, named, n, shown)
    ensures var html := JoinedHtml(part, named, 0, n).html;
      && html == (if shown == [] then None else Some(Separated(TextsOf(part, named, shown))))
      && (html.Some? ==> !IsBlank(html.value))
    decreases n
  {
    hide ChildHtml, Appended, HtmlOf, IsBlank, Separated, IsJoining, TextsOf, AreShown, AllAdd;
    if n == 0 {
      shown := [];
      NothingShown(part, named);
      ShownAdd(part, named, n, shown);
    } else {
      shown := JoinedShows(part, named, n - 1);
      ShownAdd(part, named, n - 1, shown);
      var body, other := JoinedHtml(part, named, 0, n - 1), ChildHtml(part, named, 0, n - 1);
      AppendedText(body, other);
      JoiningKind(part, named, n - 1);
      ChildShows(part, named, 0, n - 1);
      if Adds(part, named, n - 1) {
        var texts := TextsOf(part, named, shown);
        TextsGrow(part, named, n - 1, shown);
        if shown != [] {
          SeparatedGrows(texts, other.html.value);
          BlankPrefix(body.html.value, "\n\n");
          BlankPrefix(body.html.value + "\n\n", other.html.value);
        } else {
          assert texts == [];
          SeparatedOne(other.html.value);
        }
        shown := shown + [n - 1];
        ShownAdd(part, named, n, shown);
      } else {
        TextsStay(part, named, n - 1, shown);
      }
    }
  }

  lemma SeparatedOne(text: string)
    ensures Separated([] + [text]) == text
  {
  }

  lemma BlankPrefix(a: string, b: string)
    requires !IsBlank(a)
    ensures !IsBlank(a + b)
  {
    var k :| 0 <= k < |a| && !IsWhitespace(a[k]);
    assert (a + b)[k] == a[k];
    hide IsWhitespace;
  }

  /** Any other container shows every child that has HTML and not only blanks, in
      their order and with an empty line between them, and nothing else. */
  lemma OthersShowAll(part: Part, named: bool) returns (shown: seq<nat>)
    requires IsJoining(part) && IsInline(part, named) && part.children != []
    ensures AreShown(part, named, |part.children|, shown)
    ensures HtmlOf(part, named) == if shown == [] then None else Some(Separated(TextsOf(part, named, shown)))
  {
    shown := JoinedShows(part, named, |part.children|);
    JoiningKind(part, named, 0);
    ShownAdd(part, named, |part.children|, shown);
    hide JoinedHtml, AreShown, AllAdd, KindOf, IsJoining, TextsOf, Separated;
  }
}
