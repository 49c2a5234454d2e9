// For every stretch of a message's HTML, the leaf it shows and the related
// containers around that leaf: a scope lists the attachments of the containers
// on that path, the nearest first (crates/notm-mail/src/mime.rs).
module CidPaths {
  import opened MailText
  import opened MimeTree
  import opened CidScopes

  /** A way down to an HTML leaf that the selection may show: through the root of
      a related container, the first part of a signed one, any child of others. */
  predicate IsShownPath(part: Part, named: bool, path: seq<nat>)
    decreases |path|
  {
    if path == [] then
      && part.children == [] && part.body.Text? && KindOf(part.mimetype).Html?
      && !IsAttachmentLike(part, named) && !part.cryptoRelated
    else
      && path[0] < |part.children| && !IsExplicitAttachment(part, named)
      && (match KindOf(part.mimetype)
          case Related => path[0] == RelatedRoot(part)
          case Signed => path[0] == 0
          case Encrypted => false
          case _ => true)
      && IsShownPath(part.children[path[0]], NamedBodyAllowedForChild(part, named, path[0]), path[1..])
  }

  function LeafText(part: Part, named: bool, path: seq<nat>): string
    requires IsShownPath(part, named, path)
    decreases |path|
  {
    if path == [] then part.body.text
    else LeafText(part.children[path[0]], NamedBodyAllowedForChild(part, named, path[0]), path[1..])
  }

  /** The attachments beside the path in each related container on it, from the
      innermost container to the outermost. */
  function IndexesAlong(part: Part, named: bool, start: nat, path: seq<nat>): seq<nat>
    requires IsShownPath(part, named, path)
    decreases |path|
  {
    if path == [] then []
    else
      var inner := IndexesAlong(part.children[path[0]], NamedBodyAllowedForChild(part, named, path[0]),
                                ChildStart(part, named, start, path[0]), path[1..]);
      if KindOf(part.mimetype).Related?
      then inner + SiblingIndexes(part, named, start, path[0], |part.children|)
      else inner
  }

  /** A list that, level by level, names attachments inside the child on the path
      before any outside it. */
  ghost predicate RunsOutward(part: Part, named: bool, start: nat, path: seq<nat>, indexes: seq<nat>)
    decreases |path|
  {
    if path == [] then indexes == []
    else
      && path[0] < |part.children|
      && var lo := ChildStart(part, named, start, path[0]);
         var hi := ChildStart(part, named, start, path[0] + 1);
         exists m :: 0 <= m <= |indexes| && Within(indexes[..m], lo, hi) && Outside(indexes[m..], lo, hi)
                     && RunsOutward(part.children[path[0]], NamedBodyAllowedForChild(part, named, path[0]), lo,
                                    path[1..], indexes[..m])
  }

  /** A scope covers this text, which stands where the scope starts. */
  ghost predicate Shows(body: HtmlBody, scope: Scope, text: string) {
    && body.html.Some?
    && scope.start + ByteLength(text) <= scope.end
    && exists before, after :: StandsBetween(body.html.value, before, text, after, scope.start)
  }

  predicate StandsBetween(html: string, before: string, text: string, after: string, offset: nat) {
    html == before + text + after && ByteLength(before) == offset
  }

  /** A scope of a child's HTML, shown at the end of a path below the child. */
  ghost predicate IsChildScope(part: Part, named: bool, start: nat, n: nat, path: seq<nat>, body: HtmlBody,
                               scope: Scope)
  {
    && n < |part.children|
    && var (child, allowed) := (part.children[n], NamedBodyAllowedForChild(part, named, n));
       && IsShownPath(child, allowed, path)
       && IndexesOf(scope) == IndexesAlong(child, allowed, ChildStart(part, named, start, n), path)
       && Shows(body, scope, LeafText(child, allowed, path))
  }

  // ---- Appending moves scopes and texts together

  lemma StandsInFront(html: string, before: string, text: string, after: string, offset: nat, more: string)
    requires StandsBetween(html, before, text, after, offset)
    ensures StandsBetween(html + more, before, text, after + more, offset)
  {
    assert before + text + after + more == before + text + (after + more);
  }

  lemma StandsBehind(html: string, before: string, text: string, after: string, offset: nat, front: string)
    requires StandsBetween(html, before, text, after, offset)
    ensures StandsBetween(front + html, front + before, text, after, ByteLength(front) + offset)
  {
    hide ByteLength;
    ByteLengthConcat(front, before);
    Regrouped(front, before, text, after);
  }

  lemma Regrouped(a: string, b: string, c: string, d: string)
    ensures a + (b + c + d) == a + b + c + d
  {
  }

  /** Where the k-th scope of an append comes from. */
  lemma AppendedScope(body: HtmlBody, other: HtmlBody, k: nat) returns (fromBody: bool, j: nat)
    requires body.html.Some? ==> body.scopes != [] && body.scopes[|body.scopes| - 1].end == ByteLength(body.html.value)
    requires other.html.Some? ==> other.scopes != []
    requires k < |Appended(body, other).scopes|
    ensures j < |(if fromBody then body else other).scopes|
    ensures var (source, scope) := (if fromBody then body else other, Appended(body, other).scopes[k]);
      && IndexesOf(scope) == IndexesOf(source.scopes[j])
      && forall text | Shows(source, source.scopes[j], text) :: Shows(Appended(body, other), scope, text)
  {
    var appended := Appended(body, other);
    fromBody, j := true, k;
    if other.html.Some? && !IsBlank(other.html.value) {
      if body.html.None? || IsBlank(body.html.value) {
        fromBody := false;
      } else {
        AppendedScopeOfBoth(body, other, k);
        if k >= |body.scopes| {
          fromBody, j := false, k - |body.scopes|;
        }
      }
    }
  }

  lemma AppendedScopeOfBoth(body: HtmlBody, other: HtmlBody, k: nat)
    requires body.html.Some? && body.scopes != [] && body.scopes[|body.scopes| - 1].end == ByteLength(body.html.value)
    requires other.html.Some? && other.scopes != [] && !IsBlank(other.html.value) && !IsBlank(body.html.value)
    requires k < |Appended(body, other).scopes|
    ensures |Appended(body, other).scopes| == |body.scopes| + |other.scopes|
    ensures var scope := Appended(body, other).scopes[k];
      var (source, j) := if k < |body.scopes| then (body, k) else (other, k - |body.scopes|);
      && IndexesOf(scope) == IndexesOf(source.scopes[j])
      && forall text | Shows(source, source.scopes[j], text) :: Shows(Appended(body, other), scope, text)
  {
    hide IsBlank, ByteLength;
    var appended := Appended(body, other);
    var joined := body.html.value + SEPARATOR;
    ShiftedAt(other.scopes, ByteLength(joined));
    ByteLengthConcat(body.html.value, SEPARATOR);
    var scope := appended.scopes[k];
    if k < |body.scopes| {
      forall text | Shows(body, body.scopes[k], text)
        ensures Shows(appended, scope, text)
      {
        var before, after :| StandsBetween(body.html.value, before, text, after, body.scopes[k].start);
        StandsInFront(body.html.value, before, text, after, scope.start, SEPARATOR + other.html.value);
        assert appended.html.value == body.html.value + (SEPARATOR + other.html.value);
      }
    } else {
      var j := k - |body.scopes|;
      forall text | Shows(other, other.scopes[j], text)
        ensures Shows(appended, scope, text)
      {
        var before, after :| StandsBetween(other.html.value, before, text, after, other.scopes[j].start);
        StandsBehind(other.html.value, before, text, after, other.scopes[j].start, joined);
      }
    }
  }

  // ---- Every scope is the end of a path

  lemma SoundBodyEnds(body: HtmlBody, lo: nat, hi: nat)
    requires Sound(body, lo, hi)
    ensures body.html.Some? ==> body.scopes != [] && body.scopes[|body.scopes| - 1].end == ByteLength(body.html.value)
    ensures body.html.None? ==> body.scopes == []
  {
  }

  lemma LastIsAChild(part: Part, named: bool, start: nat, n: nat) returns (c: nat)
    requires n <= |part.children| && LastHtml(part, named, start, n).html.Some?
    ensures c < n && LastHtml(part, named, start, n) == ChildHtml(part, named, start, c)
    decreases n
  {
    hide ChildHtml;
    if ChildHtml(part, named, start, n - 1).html.Some? {
      c := n - 1;
    } else {
      c := LastIsAChild(part, named, start, n - 1);
    }
  }

  lemma LastIsEmpty(part: Part, named: bool, start: nat, n: nat)
    requires n <= |part.children| && LastHtml(part, named, start, n).html.None?
    ensures LastHtml(part, named, start, n).scopes == []
    decreases n
  {
    hide ChildHtml;
    if n > 0 {
      LastIsEmpty(part, named, start, n - 1);
    }
  }

  lemma ChildScopeIs(part: Part, named: bool, start: nat, n: nat, k: nat) returns (path: seq<nat>)
    requires n < |part.children| && k < |ChildHtml(part, named, start, n).scopes|
    ensures var body := ChildHtml(part, named, start, n);
      IsChildScope(part, named, start, n, path, body, body.scopes[k])
    decreases part, 0, n + 1
  {
    hide SelectedHtml, IndexesAlong, LeafText, IsShownPath, Shows, NamedBodyAllowedForChild, ChildStart;
    path := ScopeFollowsPath(part.children[n], NamedBodyAllowedForChild(part, named, n),
                             ChildStart(part, named, start, n), k);
  }

  /** A scope of the joined HTML of the first children is a scope of one of them. */
  lemma {:induction false} JoinedScopeIs(part: Part, named: bool, start: nat, n: nat, k: nat)
    returns (c: nat, path: seq<nat>)
    requires n <= |part.children| && k < |JoinedHtml(part, named, start, n).scopes|
    ensures c < n
    ensures var body := JoinedHtml(part, named, start, n);
      IsChildScope(part, named, start, c, path, body, body.scopes[k])
    decreases part, 0, n + 1
  {
    hide SelectedHtml, ChildHtml, IndexesAlong, LeafText, IsShownPath, Shows, Sound, Appended;
    var body, other := JoinedHtml(part, named, start, n - 1), ChildHtml(part, named, start, n - 1);
    ChildrenAreSound(part, named, start, n);
    ChildrenAreSound(part, named, start, n - 1);
    SoundBodyEnds(body, start, ChildStart(part, named, start, |part.children|));
    SoundBodyEnds(other, start, ChildStart(part, named, start, |part.children|));
    var fromBody, j := AppendedScope(body, other, k);
    if fromBody {
      c, path := JoinedScopeIs(part, named, start, n - 1, j);
    } else {
      c := n - 1;
      path := ChildScopeIs(part, named, start, n - 1, j);
    }
  }

  /** For every tree and every scope of its HTML there is a path to the leaf whose
      text the scope shows, and the scope lists exactly the attachments beside that
      path in the related containers on it, from the innermost to the outermost. */
  lemma {:induction false} ScopeFollowsPath(part: Part, named: bool, start: nat, k: nat) returns (path: seq<nat>)
    requires k < |SelectedHtml(part, named, start).scopes|
    ensures var body := SelectedHtml(part, named, start);
      && IsShownPath(part, named, path)
      && IndexesOf(body.scopes[k]) == IndexesAlong(part, named, start, path)
      && Shows(body, body.scopes[k], LeafText(part, named, path))
    decreases part, 1, 0
  {
    hide Shows, ChildHtml, LastHtml, JoinedHtml, WithSiblings, IsShownPath, LeafText, IndexesAlong, IsChildScope,
         IsExplicitAttachment;
    var body := SelectedHtml(part, named, start);
    if part.children == [] {
      path := [];
      EmptyPath(part, named, start);
      LeafIsShown(part.body.text);
    } else {
      var c, inner;
      var inside := body.scopes[k];
      match KindOf(part.mimetype) {
        case Alternative =>
          if LastHtml(part, named, start, |part.children|).html.None? {
            LastIsEmpty(part, named, start, |part.children|);
          }
          c := LastIsAChild(part, named, start, |part.children|);
          inner := ChildScopeIs(part, named, start, c, k);
        case Related =>
          c := RelatedRoot(part);
          NearestContainerFirst(part, named, start);
          inner := ChildScopeIs(part, named, start, c, k);
          inside := ChildHtml(part, named, start, c).scopes[k];
          IndexesOfSome(body.scopes[k]);
        case Signed =>
          c := 0;
          inner := ChildScopeIs(part, named, start, c, k);
        case Encrypted =>
          assert false;
        case _ =>
          c, inner := JoinedScopeIs(part, named, start, |part.children|, k);
      }
      path := [c] + inner;
      ChildScopeSays(part, named, start, c, inner,
                     if KindOf(part.mimetype).Related? then ChildHtml(part, named, start, c) else body, inside);
      PathStep(part, named, start, c, inner);
      if KindOf(part.mimetype).Related? {
        ShowsAlike(ChildHtml(part, named, start, c), inside, body, body.scopes[k], LeafText(part, named, path));
      }
    }
  }

  lemma EmptyPath(part: Part, named: bool, start: nat)
    ensures IsShownPath(part, named, []) <==>
      && part.children == [] && part.body.Text? && KindOf(part.mimetype).Html?
      && !IsAttachmentLike(part, named) && !part.cryptoRelated
    ensures IsShownPath(part, named, []) ==>
      LeafText(part, named, []) == part.body.text && IndexesAlong(part, named, start, []) == []
  {
  }

  lemma ChildScopeSays(part: Part, named: bool, start: nat, n: nat, path: seq<nat>, body: HtmlBody, scope: Scope)
    requires IsChildScope(part, named, start, n, path, body, scope)
    ensures n < |part.children|
    ensures var (child, allowed) := (part.children[n], NamedBodyAllowedForChild(part, named, n));
      && IsShownPath(child, allowed, path)
      && IndexesOf(scope) == IndexesAlong(child, allowed, ChildStart(part, named, start, n), path)
      && Shows(body, scope, LeafText(child, allowed, path))
  {
  }

  lemma PathStep(part: Part, named: bool, start: nat, c: nat, inner: seq<nat>)
    requires c < |part.children| && !IsExplicitAttachment(part, named) && !KindOf(part.mimetype).Encrypted?
    requires KindOf(part.mimetype).Related? ==> c == RelatedRoot(part)
    requires KindOf(part.mimetype).Signed? ==> c == 0
    requires IsShownPath(part.children[c], NamedBodyAllowedForChild(part, named, c), inner)
    ensures var (child, allowed) := (part.children[c], NamedBodyAllowedForChild(part, named, c));
      && IsShownPath(part, named, [c] + inner)
      && LeafText(part, named, [c] + inner) == LeafText(child, allowed, inner)
      && IndexesAlong(part, named, start, [c] + inner) ==
           IndexesAlong(child, allowed, ChildStart(part, named, start, c), inner)
           + if KindOf(part.mimetype).Related? then SiblingIndexes(part, named, start, c, |part.children|) else []
  {
    hide IsExplicitAttachment, SiblingIndexes, KindOf, RelatedRoot;
    var path := [c] + inner;
    assert path[1..] == inner;
    var found := IndexesAlong(part.children[c], NamedBodyAllowedForChild(part, named, c),
                              ChildStart(part, named, start, c), inner);
    assert found + [] == found;
  }

  lemma ShowsAlike(body: HtmlBody, scope: Scope, other: HtmlBody, like: Scope, text: string)
    requires Shows(body, scope, text) && other.html == body.html && like.start == scope.start && like.end == scope.end
    ensures Shows(other, like, text)
  {
  }

  lemma LeafIsShown(text: string)
    ensures Shows(HtmlBody(Some(text), [Scope(0, ByteLength(text), None)]), Scope(0, ByteLength(text), None), text)
  {
    assert StandsBetween(text, "", text, "", 0);
  }

  // ---- The nearest container first

  lemma AlongUnfolds(part: Part, named: bool, start: nat, path: seq<nat>)
    requires IsShownPath(part, named, path) && path != []
    ensures path[0] < |part.children|
    ensures IsShownPath(part.children[path[0]], NamedBodyAllowedForChild(part, named, path[0]), path[1..])
    ensures IndexesAlong(part, named, start, path) ==
      IndexesAlong(part.children[path[0]], NamedBodyAllowedForChild(part, named, path[0]),
                   ChildStart(part, named, start, path[0]), path[1..])
      + if KindOf(part.mimetype).Related? then SiblingIndexes(part, named, start, path[0], |part.children|) else []
  {
    hide IsExplicitAttachment, SiblingIndexes, KindOf, RelatedRoot;
    var inner := IndexesAlong(part.children[path[0]], NamedBodyAllowedForChild(part, named, path[0]),
                              ChildStart(part, named, start, path[0]), path[1..]);
    assert inner + [] == inner;
  }

  lemma NothingAlong(part: Part, named: bool, start: nat, path: seq<nat>)
    requires IsShownPath(part, named, path) && path == []
    ensures IndexesAlong(part, named, start, path) == []
  {
  }

  /** What is listed along a path belongs to the tree the path leads through. */
  lemma {:induction false} AlongIsWithin(part: Part, named: bool, start: nat, path: seq<nat>)
    requires IsShownPath(part, named, path)
    ensures Within(IndexesAlong(part, named, start, path), start, start + |Leaves(part, named)|)
    decreases |path|
  {
    hide *;
    if path == [] {
      NothingAlong(part, named, start, path);
      WithinConcat([], [], start, start, start, start + |Leaves(part, named)|);
      NothingAdded([]);
    } else {
      AlongUnfolds(part, named, start, path);
      var c, n := path[0], |part.children|;
      var (child, allowed) := (part.children[c], NamedBodyAllowedForChild(part, named, c));
      var lo, hi := ChildStart(part, named, start, c), ChildStart(part, named, start, c + 1);
      AlongIsWithin(child, allowed, lo, path[1..]);
      ChildEnds(part, named, start, c);
      ChildStartsGrow(part, named, start, 0, c);
      ChildStartsGrow(part, named, start, c + 1, n);
      StartOfFirst(part, named, start);
      LeavesOfContainer(part, named, start);
      SiblingsAreElsewhere(part, named, start, c, n);
      var inner := IndexesAlong(child, allowed, lo, path[1..]);
      var siblings := SiblingIndexes(part, named, start, c, n);
      WithinConcat(inner, siblings, start, lo, hi, start + |Leaves(part, named)|);
      WithinConcat(inner, [], start, lo, hi, start + |Leaves(part, named)|);
    }
  }

  lemma WithinConcat(a: seq<nat>, b: seq<nat>, start: nat, lo: nat, hi: nat, end: nat)
    requires a != [] ==> Within(a, lo, hi)
    requires b != [] ==> Within(b, start, end)
    requires start <= lo && hi <= end
    ensures Within(a + b, start, end)
  {
  }

  lemma ChildEnds(part: Part, named: bool, start: nat, c: nat)
    requires c < |part.children|
    ensures ChildStart(part, named, start, c + 1)
         == ChildStart(part, named, start, c) + |Leaves(part.children[c], NamedBodyAllowedForChild(part, named, c))|
  {
  }

  /** Along any path, at every level, what lies inside the next child comes first. */
  lemma {:induction false} AlongRunsOutward(part: Part, named: bool, start: nat, path: seq<nat>)
    requires IsShownPath(part, named, path)
    ensures RunsOutward(part, named, start, path, IndexesAlong(part, named, start, path))
    decreases |path|
  {
    hide *;
    if path == [] {
      NothingAlong(part, named, start, path);
      OutwardUnfolds(part, named, start, path, [], []);
      NothingAdded([]);
    } else {
      AlongUnfolds(part, named, start, path);
      var c := path[0];
      var (child, allowed) := (part.children[c], NamedBodyAllowedForChild(part, named, c));
      var lo := ChildStart(part, named, start, c);
      AlongRunsOutward(child, allowed, lo, path[1..]);
      AlongIsWithin(child, allowed, lo, path[1..]);
      ChildEnds(part, named, start, c);
      SiblingsAreElsewhere(part, named, start, c, |part.children|);
      NothingIsOutside(lo, ChildStart(part, named, start, c + 1));
      OutwardUnfolds(part, named, start, path, IndexesAlong(child, allowed, lo, path[1..]),
                     if KindOf(part.mimetype).Related? then SiblingIndexes(part, named, start, c, |part.children|)
                     else []);
    }
  }

  lemma NothingAdded(indexes: seq<nat>)
    ensures indexes + [] == indexes
  {
  }

  lemma NothingIsOutside(lo: nat, hi: nat)
    ensures Outside([], lo, hi)
  {
  }

  lemma OutwardUnfolds(part: Part, named: bool, start: nat, path: seq<nat>, inner: seq<nat>, outer: seq<nat>)
    requires path == [] ==> inner == [] && outer == []
    requires path != [] ==>
      && path[0] < |part.children|
      && var (child, allowed) := (part.children[path[0]], NamedBodyAllowedForChild(part, named, path[0]));
         var (lo, hi) := (ChildStart(part, named, start, path[0]), ChildStart(part, named, start, path[0] + 1));
         Within(inner, lo, hi) && Outside(outer, lo, hi) && RunsOutward(child, allowed, lo, path[1..], inner)
    ensures RunsOutward(part, named, start, path, inner + outer)
  {
    hide ChildStart, NamedBodyAllowedForChild, Within, Outside;
    var all := inner + outer;
    assert all[..|inner|] == inner && all[|inner|..] == outer;
  }

  /** For every tree each scope of its HTML lists the attachments of the nearer
      containers around the leaf it shows before those of the farther ones. */
  lemma NearestFirst(part: Part, named: bool, start: nat, k: nat)
    requires k < |SelectedHtml(part, named, start).scopes|
    ensures var body := SelectedHtml(part, named, start);
      exists path ::
        && IsShownPath(part, named, path) && Shows(body, body.scopes[k], LeafText(part, named, path))
        && RunsOutward(part, named, start, path, IndexesOf(body.scopes[k]))
  {
    var path := ScopeFollowsPath(part, named, start, k);
    AlongRunsOutward(part, named, start, path);
    hide *;
  }
}
