// Every HTML leaf that a message's containers choose is shown: its text stands in
// the body, under a scope with exactly the attachments beside the way to it
// (crates/notm-mail/src/mime.rs).
module HtmlPaths {
  import opened MailText
  import opened MimeTree
  import opened CidScopes
  import opened CidPaths
  import opened HtmlBodies
  import opened MimeLeaves

  /** A way down to readable HTML that every container on it chooses: of
      alternatives the last with HTML, the root of a related container, what a
      signed one signs, any child of others. */
  ghost predicate IsChosen(part: Part, named: bool, path: seq<nat>)
    decreases |path|
  {
    if path == [] then
      part.children == [] && part.mimetype == "text/html" && part.body.Text? && IsInline(part, named)
      && !part.cryptoRelated
    else
      && path[0] < |part.children| && IsInline(part, named) && part.mimetype != "multipart/encrypted"
      && (part.mimetype == "multipart/alternative" ==>
          forall d | path[0] < d < |part.children| :: HtmlOf(part.children[d], true).None?)
      && (part.mimetype == "multipart/related" ==> IsRoot(part, path[0]))
      && (part.mimetype == "multipart/signed" ==> path[0] == 0)
      && IsChosen(part.children[path[0]], MayBeNamed(part, named, path[0]), path[1..])
  }

  function TextAt(part: Part, path: seq<nat>): string
    decreases |path|
  {
    if path == [] then if part.body.Text? then part.body.text else ""
    else if path[0] < |part.children| then TextAt(part.children[path[0]], path[1..])
    else ""
  }

  lemma {:induction false} ChosenIsShown(part: Part, named: bool, path: seq<nat>)
    requires IsChosen(part, named, path)
    ensures IsShownPath(part, named, path) && LeafText(part, named, path) == TextAt(part, path)
    ensures path != [] ==> NamedBodyAllowedForChild(part, named, path[0]) == MayBeNamed(part, named, path[0])
    decreases |path|
  {
    if path != [] {
      if part.mimetype == "multipart/related" {
        RootIs(part, path[0]);
      }
      ChosenIsShown(part.children[path[0]], MayBeNamed(part, named, path[0]), path[1..]);
      hide IsRoot, RelatedRoot, HtmlOf;
    }
  }

  lemma ShownIsNotBlank(body: HtmlBody, scope: Scope, text: string)
    requires Shows(body, scope, text) && !IsBlank(text)
    ensures !IsBlank(body.html.value)
  {
    hide ByteLength, IsWhitespace;
    var before, after :| StandsBetween(body.html.value, before, text, after, scope.start);
    var k :| 0 <= k < |text| && !IsWhitespace(text[k]);
    assert (before + text + after)[|before| + k] == text[k];
  }

  /** Where a scope is found again after an append. */
  lemma ScopeIsKept(body: HtmlBody, other: HtmlBody, fromBody: bool, j: nat, text: string) returns (k: nat)
    requires body.html.Some? ==> body.scopes != [] && body.scopes[|body.scopes| - 1].end == ByteLength(body.html.value)
    requires other.html.Some? ==> other.scopes != []
    requires !IsBlank(text)
    requires j < |(if fromBody then body else other).scopes|
    requires var source := if fromBody then body else other; Shows(source, source.scopes[j], text)
    ensures var source := if fromBody then body else other;
      var appended := Appended(body, other);
      k < |appended.scopes| && Shows(appended, appended.scopes[k], text)
      && IndexesOf(appended.scopes[k]) == IndexesOf(source.scopes[j])
  {
    hide Shows, IsBlank, ByteLength, Extended, Shifted;
    var source := if fromBody then body else other;
    ShownHasHtml(source, source.scopes[j], text);
    ShownIsNotBlank(source, source.scopes[j], text);
    k := j;
    if other.html.None? || IsBlank(other.html.value) {
    } else if body.html.None? || IsBlank(body.html.value) {
      ShowsAlike(other, other.scopes[j], Appended(body, other), Appended(body, other).scopes[k], text);
    } else {
      k := if fromBody then j else |body.scopes| + j;
      BothAreKept(body, other);
      AppendedScopeOfBoth(body, other, k);
    }
  }

  lemma BothAreKept(body: HtmlBody, other: HtmlBody)
    requires body.html.Some? && body.scopes != [] && !IsBlank(body.html.value)
    requires other.html.Some? && other.scopes != [] && !IsBlank(other.html.value)
    ensures |Appended(body, other).scopes| == |body.scopes| + |other.scopes|
  {
    hide IsBlank, ByteLength;
    ShiftedAt(other.scopes, ByteLength(body.html.value + SEPARATOR));
  }

  lemma ShownHasHtml(body: HtmlBody, scope: Scope, text: string)
    requires Shows(body, scope, text)
    ensures body.html.Some?
  {
  }

  lemma {:induction false} JoinedKeeps(part: Part, named: bool, start: nat, n: nat, c: nat, j: nat, text: string)
    returns (k: nat)
    requires c < n <= |part.children| && !IsBlank(text)
    requires var child := ChildHtml(part, named, start, c);
      j < |child.scopes| && Shows(child, child.scopes[j], text)
    ensures var child := ChildHtml(part, named, start, c);
      var joined := JoinedHtml(part, named, start, n);
      k < |joined.scopes| && Shows(joined, joined.scopes[k], text)
      && IndexesOf(joined.scopes[k]) == IndexesOf(child.scopes[j])
    decreases n
  {
    hide SelectedHtml, ChildHtml, Shows, Sound, Appended, IsBlank, ByteLength, IndexesOf, ChildStart;
    var body, other := JoinedHtml(part, named, start, n - 1), ChildHtml(part, named, start, n - 1);
    ChildrenAreSound(part, named, start, n);
    ChildrenAreSound(part, named, start, n - 1);
    SoundBodyEnds(body, start, ChildStart(part, named, start, |part.children|));
    SoundBodyEnds(other, start, ChildStart(part, named, start, |part.children|));
    var i := j;
    if c < n - 1 {
      i := JoinedKeeps(part, named, start, n - 1, c, j, text);
    }
    k := ScopeIsKept(body, other, c < n - 1, i, text);
  }

  lemma ChosenInside(part: Part, named: bool, path: seq<nat>)
    requires IsChosen(part, named, path) && path != []
    ensures path[0] < |part.children| && IsInline(part, named) && part.mimetype != "multipart/encrypted"
    ensures part.mimetype == "multipart/alternative" ==>
      forall d | path[0] < d < |part.children| :: HtmlOf(part.children[d], true).None?
    ensures part.mimetype == "multipart/related" ==> RelatedRoot(part) == path[0]
    ensures part.mimetype == "multipart/signed" ==> path[0] == 0
    ensures NamedBodyAllowedForChild(part, named, path[0]) == MayBeNamed(part, named, path[0])
    ensures IsChosen(part.children[path[0]], MayBeNamed(part, named, path[0]), path[1..])
    ensures TextAt(part, path) == TextAt(part.children[path[0]], path[1..])
  {
    ChosenIsShown(part, named, path);
    if part.mimetype == "multipart/related" {
      RootIs(part, path[0]);
    }
    hide IsRoot, RelatedRoot, HtmlOf, IsInline, NamedBodyAllowedForChild;
  }

  /** The scope of a child in its container's body. */
  lemma ContainerKeeps(part: Part, named: bool, start: nat, path: seq<nat>, j: nat, text: string) returns (k: nat)
    requires IsChosen(part, named, path) && path != [] && !IsBlank(text) && path[0] < |part.children|
    requires var child := ChildHtml(part, named, start, path[0]);
      j < |child.scopes| && Shows(child, child.scopes[j], text)
    ensures var child := ChildHtml(part, named, start, path[0]);
      var body := SelectedHtml(part, named, start);
      && k < |body.scopes| && Shows(body, body.scopes[k], text)
      && IndexesOf(body.scopes[k]) == IndexesOf(child.scopes[j])
           + if part.mimetype == "multipart/related" then SiblingIndexes(part, named, start, path[0], |part.children|)
             else []
  {
    ChosenInside(part, named, path);
    var child := ChildHtml(part, named, start, path[0]);
    ShownHasHtml(child, child.scopes[j], text);
    NothingAdded(IndexesOf(child.scopes[j]));
    k := j;
    hide Shows, IsBlank, IsChosen, ChildHtml, LastHtml, JoinedHtml, WithSiblings, SiblingIndexes, RelatedRoot,
         ChildStart, IndexesOf, HtmlOf;
    if part.mimetype == "multipart/alternative" {
      ChildShows(part, named, start, path[0]);
      AlternativeShowsTheLast(part, named, start, path[0]);
      ChildIs(part, named, start, path[0]);
    } else if part.mimetype == "multipart/related" {
      NearestContainerFirst(part, named, start);
      var body := SelectedHtml(part, named, start);
      IndexesOfSome(body.scopes[k]);
      ShowsAlike(child, child.scopes[j], body, body.scopes[k], text);
    } else if part.mimetype != "multipart/signed" {
      k := JoinedKeeps(part, named, start, |part.children|, path[0], j, text);
    }
  }

  lemma ChildIs(part: Part, named: bool, start: nat, c: nat)
    requires c < |part.children|
    ensures ChildHtml(part, named, start, c)
         == SelectedHtml(part.children[c], NamedBodyAllowedForChild(part, named, c), ChildStart(part, named, start, c))
  {
  }

  /** For every tree, each chosen way to HTML that is not only blanks ends in a text
      the body shows, and the scope over it lists exactly the attachments beside
      that way in its related containers. */
  lemma {:induction false} ChosenLeavesAreShown(part: Part, named: bool, start: nat, path: seq<nat>) returns (k: nat)
    requires IsChosen(part, named, path) && !IsBlank(TextAt(part, path))
    ensures IsShownPath(part, named, path)
    ensures var body := SelectedHtml(part, named, start);
      && k < |body.scopes| && Shows(body, body.scopes[k], TextAt(part, path))
      && IndexesOf(body.scopes[k]) == IndexesAlong(part, named, start, path)
    decreases |path|
  {
    hide IsBlank, Shows, IsChosen, IsShownPath, ChildHtml, LastHtml, JoinedHtml, WithSiblings, SiblingIndexes,
         RelatedRoot, ChildStart, IndexesAlong, LeafText, NamedBodyAllowedForChild, HtmlOf;
    ChosenIsShown(part, named, path);
    if path == [] {
      EmptyPath(part, named, start);
      LeafIsShown(part.body.text);
      k := 0;
    } else {
      ChosenInside(part, named, path);
      var c := path[0];
      var lo := ChildStart(part, named, start, c);
      var j := ChosenLeavesAreShown(part.children[c], MayBeNamed(part, named, c), lo, path[1..]);
      ChildIs(part, named, start, c);
      k := ContainerKeeps(part, named, start, path, j, TextAt(part, path));
      AlongUnfolds(part, named, start, path);
      RelatedKind(part.mimetype);
      hide SelectedHtml, KindOf;
    }
  }

  lemma RelatedKind(mimetype: string)
    ensures KindOf(mimetype).Related? <==> mimetype == "multipart/related"
  {
  }

  // ---- What stands beside a path

  lemma {:induction false} RangeIs(lo: nat, hi: nat, x: nat)
    ensures x in Range(lo, hi) <==> lo <= x < hi
    decreases hi
  {
    if lo < hi {
      RangeIs(lo, hi - 1, x);
    }
  }

  /** The attachments listed at a related container are all it holds outside its root. */
  lemma {:induction false} SiblingsAreTheOthers(part: Part, named: bool, start: nat, root: nat, n: nat, x: nat)
    requires n <= |part.children| && root < |part.children|
    ensures x in SiblingIndexes(part, named, start, root, n) <==>
      && start <= x < ChildStart(part, named, start, n)
      && !(ChildStart(part, named, start, root) <= x < ChildStart(part, named, start, root + 1))
    decreases n
  {
    hide ChildStart, Range;
    StartOfFirst(part, named, start);
    if n > 0 {
      SiblingsAreTheOthers(part, named, start, root, n - 1, x);
      ChildStartsGrow(part, named, start, 0, n - 1);
      ChildStartsGrow(part, named, start, n - 1, n);
      RangeIs(ChildStart(part, named, start, n - 1), ChildStart(part, named, start, n), x);
      if n - 1 < root {
        ChildStartsGrow(part, named, start, n, root);
      } else if root < n - 1 {
        ChildStartsGrow(part, named, start, root + 1, n - 1);
      }
    }
  }
}
