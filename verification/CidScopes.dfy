// Which attachments a stretch of the HTML body may show by content identifier:
// scopes built up across nested containers (crates/notm-mail/src/mime.rs).
module CidScopes {
  import opened MailText
  import opened MimeTree

  /** A byte range of the HTML body; without indexes it belongs to no related container. */
  datatype Scope = Scope(start: nat, end: nat, indexes: Option<seq<nat>>)

  datatype HtmlBody = HtmlBody(html: Option<string>, scopes: seq<Scope>)

  const NO_HTML := HtmlBody(None, [])

  predicate IsWhitespace(c: char) {
    var n := c as int;
    || 9 <= n <= 13 || n == 0x20 || n == 0x85 || n == 0xA0 || n == 0x1680 || 0x2000 <= n <= 0x200A
    || n == 0x2028 || n == 0x2029 || n == 0x202F || n == 0x205F || n == 0x3000
  }

  predicate IsBlank(s: string) {
    forall k | 0 <= k < |s| :: IsWhitespace(s[k])
  }

  // ---- Appending

  function Shifted(scopes: seq<Scope>, offset: nat): seq<Scope> {
    if scopes == [] then []
    else Shifted(scopes[..|scopes| - 1], offset)
         + [var last := scopes[|scopes| - 1]; last.(start := last.start + offset, end := last.end + offset)]
  }

  /** The scopes of a body, or one for all of it if there are none. */
  function ScopesOf(html: string, scopes: seq<Scope>): seq<Scope> {
    if scopes == [] then [Scope(0, ByteLength(html), None)] else scopes
  }

  const SEPARATOR := "\n\n"

  function Extended(scopes: seq<Scope>, end: nat): seq<Scope> {
    if scopes == [] then [Scope(0, end, None)]
    else scopes[|scopes| - 1 := scopes[|scopes| - 1].(end := end)]
  }

  function Appended(body: HtmlBody, other: HtmlBody): HtmlBody {
    if other.html.None? || IsBlank(other.html.value) then body
    else
      var source := other.html.value;
      var scopes := ScopesOf(source, other.scopes);
      if body.html.None? || IsBlank(body.html.value) then HtmlBody(Some(source), scopes)
      else
        var joined := body.html.value + SEPARATOR;
        HtmlBody(Some(joined + source),
                 Extended(body.scopes, ByteLength(joined)) + Shifted(scopes, ByteLength(joined)))
  }

  /** The destination of an append, changed in place. */
  class HtmlDestination {
    var html: Option<string>
    var scopes: seq<Scope>

    function Contents(): HtmlBody
      reads this
    {
      HtmlBody(html, scopes)
    }

    constructor ()
      ensures Contents() == NO_HTML
    {
      html, scopes := None, [];
    }

    method AppendHtmlBody(source: Option<string>, sourceScopes: seq<Scope>)
      modifies this
      ensures Contents() == Appended(old(Contents()), HtmlBody(source, sourceScopes))
    {
      if source.None? || IsBlank(source.value) {
        return;
      }
      var added := sourceScopes;
      if added == [] {
        added := [Scope(0, ByteLength(source.value), None)];
      }
      if html.Some? && !IsBlank(html.value) {
        html := Some(html.value + SEPARATOR);
        if scopes != [] {
          var last := scopes[|scopes| - 1];
          scopes := scopes[|scopes| - 1 := last.(end := ByteLength(html.value))];
        } else {
          scopes := scopes + [Scope(0, ByteLength(html.value), None)];
        }
        var offset := ByteLength(html.value);
        var shifted: seq<Scope> := [];
        for k := 0 to |added|
          invariant shifted == Shifted(added[..k], offset)
        {
          assert added[..k + 1][..k] == added[..k];
          shifted := shifted + [added[k].(start := added[k].start + offset, end := added[k].end + offset)];
        }
        assert added[..|added|] == added;
        html := Some(html.value + source.value);
        scopes := scopes + shifted;
      } else {
        html := source;
        scopes := added;
      }
    }
  }

  // ---- Related containers

  function Range(lo: nat, hi: nat): seq<nat> {
    if lo >= hi then [] else Range(lo, hi - 1) + [hi - 1]
  }

  /** The attachment indexes of the first children but the root. */
  function SiblingIndexes(part: Part, named: bool, start: nat, root: nat, n: nat): seq<nat>
    requires n <= |part.children|
    decreases n
  {
    if n == 0 then []
    else SiblingIndexes(part, named, start, root, n - 1)
         + if n - 1 == root then [] else Range(ChildStart(part, named, start, n - 1), ChildStart(part, named, start, n))
  }

  /** The first attachment index of a child, given that of its container. */
  function ChildStart(part: Part, named: bool, start: nat, n: nat): nat
    requires n <= |part.children|
  {
    start + |LeavesOfFirst(part, named, n)|
  }

  /** Adding what is not there yet, in order. */
  function PushNew(indexes: seq<nat>, candidates: seq<nat>): seq<nat>
    decreases |candidates|
  {
    if candidates == [] then indexes
    else
      var init := PushNew(indexes, candidates[..|candidates| - 1]);
      var last := candidates[|candidates| - 1];
      if last in init then init else init + [last]
  }

  function IndexesOf(scope: Scope): seq<nat> {
    if scope.indexes.None? then [] else scope.indexes.value
  }

  function WithSiblings(scopes: seq<Scope>, siblings: seq<nat>): seq<Scope> {
    seq(|scopes|, k requires 0 <= k < |scopes| => scopes[k].(indexes := Some(PushNew(IndexesOf(scopes[k]), siblings))))
  }

  // ---- The body a tree selects

  /** The HTML of a tree and its scopes, its first attachment having a given index. */
  function SelectedHtml(part: Part, named: bool, start: nat): HtmlBody
    decreases part, 1, 0
  {
    if part.children == [] then
      if IsAttachmentLike(part, named) || part.cryptoRelated then NO_HTML
      else if !part.body.Text? || !KindOf(part.mimetype).Html? then NO_HTML
      else HtmlBody(Some(part.body.text), [Scope(0, ByteLength(part.body.text), None)])
    else if IsExplicitAttachment(part, named) then NO_HTML
    else
      match KindOf(part.mimetype)
      case Alternative => LastHtml(part, named, start, |part.children|)
      case Related =>
        var root := RelatedRoot(part);
        var selected := ChildHtml(part, named, start, root);
        if selected.html.None? then selected
        else selected.(scopes := WithSiblings(ScopesOf(selected.html.value, selected.scopes),
                                              SiblingIndexes(part, named, start, root, |part.children|)))
      case Signed => ChildHtml(part, named, start, 0)
      case Encrypted => NO_HTML
      case _ => JoinedHtml(part, named, start, |part.children|)
  }

  function ChildHtml(part: Part, named: bool, start: nat, n: nat): HtmlBody
    requires n < |part.children|
    decreases part, 0, n + 1
  {
    SelectedHtml(part.children[n], NamedBodyAllowedForChild(part, named, n), ChildStart(part, named, start, n))
  }

  /** The last HTML among the first children: alternatives grow more faithful. */
  function LastHtml(part: Part, named: bool, start: nat, n: nat): HtmlBody
    requires n <= |part.children|
    decreases part, 0, n + 1
  {
    if n == 0 then NO_HTML
    else
      var last := ChildHtml(part, named, start, n - 1);
      if last.html.Some? then last else LastHtml(part, named, start, n - 1)
  }

  function JoinedHtml(part: Part, named: bool, start: nat, n: nat): HtmlBody
    requires n <= |part.children|
    decreases part, 0, n + 1
  {
    if n == 0 then NO_HTML
    else Appended(JoinedHtml(part, named, start, n - 1), ChildHtml(part, named, start, n - 1))
  }

  // ---- Scopes tile the body, and name allocated attachments once

  /** Consecutive scopes that cover a byte range. */
  ghost predicate Tiles(scopes: seq<Scope>, from: nat, to: nat) {
    && scopes != [] && scopes[0].start == from && scopes[|scopes| - 1].end == to
    && (forall k | 0 <= k < |scopes| :: scopes[k].start <= scopes[k].end)
    && (forall j, k | 0 <= j < |scopes| && 0 <= k < |scopes| && k == j + 1 :: scopes[j].end == scopes[k].start)
  }

  ghost predicate Distinct(indexes: seq<nat>) {
    forall j, k | 0 <= j < k < |indexes| :: indexes[j] != indexes[k]
  }

  ghost predicate Within(indexes: seq<nat>, lo: nat, hi: nat) {
    forall k | 0 <= k < |indexes| :: lo <= indexes[k] < hi
  }

  ghost predicate AreAllocated(scopes: seq<Scope>, lo: nat, hi: nat) {
    forall k | 0 <= k < |scopes| :: Distinct(IndexesOf(scopes[k])) && Within(IndexesOf(scopes[k]), lo, hi)
  }

  ghost predicate Sound(body: HtmlBody, lo: nat, hi: nat) {
    && (if body.html.None? then body.scopes == [] else Tiles(body.scopes, 0, ByteLength(body.html.value)))
    && AreAllocated(body.scopes, lo, hi)
  }

  lemma SoundWidens(body: HtmlBody, lo: nat, hi: nat, lo': nat, hi': nat)
    requires Sound(body, lo, hi) && lo' <= lo && hi <= hi'
    ensures Sound(body, lo', hi')
  {
    hide Distinct, Tiles;
  }

  lemma {:induction false} ShiftedAt(scopes: seq<Scope>, offset: nat)
    ensures |Shifted(scopes, offset)| == |scopes|
    ensures forall k | 0 <= k < |scopes| ::
      Shifted(scopes, offset)[k] == scopes[k].(start := scopes[k].start + offset, end := scopes[k].end + offset)
    decreases |scopes|
  {
    if scopes != [] {
      ShiftedAt(scopes[..|scopes| - 1], offset);
    }
  }

  lemma ShiftedTiles(scopes: seq<Scope>, offset: nat, to: nat)
    requires Tiles(scopes, 0, to)
    ensures Tiles(Shifted(scopes, offset), offset, to + offset)
  {
    ShiftedAt(scopes, offset);
  }

  lemma ExtendedTiles(scopes: seq<Scope>, to: nat, to': nat)
    requires Tiles(scopes, 0, to) && to <= to'
    ensures Tiles(Extended(scopes, to'), 0, to')
  {
  }

  lemma TilesConcat(a: seq<Scope>, b: seq<Scope>, mid: nat, to: nat)
    requires Tiles(a, 0, mid) && Tiles(b, mid, to)
    ensures Tiles(a + b, 0, to)
  {
    var c := a + b;
    forall j, k | 0 <= j < |c| && 0 <= k < |c| && k == j + 1
      ensures c[j].end == c[k].start
    {
      if k < |a| {
        assert c[j] == a[j] && c[k] == a[k];
      } else if j >= |a| {
        assert c[j] == b[j - |a|] && c[k] == b[k - |a|];
      }
    }
  }

  lemma AllocatedConcat(a: seq<Scope>, b: seq<Scope>, lo: nat, hi: nat)
    requires AreAllocated(a, lo, hi) && AreAllocated(b, lo, hi)
    ensures AreAllocated(a + b, lo, hi)
  {
    hide Distinct, Within, IndexesOf;
  }

  /** Appending keeps scopes tiling: the last one grows over the separator, the
      new ones move behind it. */
  lemma AppendedIsSound(body: HtmlBody, other: HtmlBody, lo: nat, hi: nat)
    requires Sound(body, lo, hi) && Sound(other, lo, hi)
    ensures Sound(Appended(body, other), lo, hi)
  {
    hide Tiles, Distinct, Within, IsBlank, ByteLength;
    if other.html.Some? && !IsBlank(other.html.value) && body.html.Some? && !IsBlank(body.html.value) {
      var length := ByteLength(body.html.value);
      var joined := body.html.value + SEPARATOR;
      var offset := ByteLength(joined);
      var source := other.html.value;
      ByteLengthConcat(body.html.value, SEPARATOR);
      ByteLengthConcat(joined, source);
      TilesAreSome(body.scopes, 0, length);
      TilesAreSome(other.scopes, 0, ByteLength(source));
      ExtendedTiles(body.scopes, length, offset);
      ShiftedTiles(other.scopes, offset, ByteLength(source));
      TilesConcat(Extended(body.scopes, offset), Shifted(other.scopes, offset), offset, ByteLength(joined + source));
      ShiftedAt(other.scopes, offset);
      AllocatedConcat(Extended(body.scopes, offset), Shifted(other.scopes, offset), lo, hi);
    } else if other.html.Some? {
      TilesAreSome(other.scopes, 0, ByteLength(other.html.value));
    }
  }

  lemma TilesAreSome(scopes: seq<Scope>, from: nat, to: nat)
    requires Tiles(scopes, from, to)
    ensures scopes != []
  {
  }

  // ---- What a related container adds

  lemma {:induction false} RangeHolds(lo: nat, hi: nat)
    ensures Distinct(Range(lo, hi)) && Within(Range(lo, hi), lo, hi)
    decreases hi
  {
    if lo < hi {
      RangeHolds(lo, hi - 1);
    }
  }

  lemma DistinctConcat(a: seq<nat>, b: seq<nat>)
    requires Distinct(a) && Distinct(b) && forall k | 0 <= k < |b| :: b[k] !in a
    ensures Distinct(a + b)
  {
  }

  lemma {:induction false} PushNewAppends(indexes: seq<nat>, candidates: seq<nat>)
    requires Distinct(candidates) && forall k | 0 <= k < |candidates| :: candidates[k] !in indexes
    ensures PushNew(indexes, candidates) == indexes + candidates
    decreases |candidates|
  {
    if candidates == [] {
      assert indexes + candidates == indexes;
    } else {
      var init := candidates[..|candidates| - 1];
      PushNewAppends(indexes, init);
      assert indexes + candidates == indexes + init + [candidates[|candidates| - 1]];
    }
  }

  lemma {:induction false} ChildStartsGrow(part: Part, named: bool, start: nat, m: nat, n: nat)
    requires m <= n <= |part.children|
    ensures start <= ChildStart(part, named, start, m) <= ChildStart(part, named, start, n)
    decreases n
  {
    if m < n {
      ChildStartsGrow(part, named, start, m, n - 1);
    }
  }

  ghost predicate Outside(indexes: seq<nat>, lo: nat, hi: nat) {
    forall k | 0 <= k < |indexes| :: indexes[k] < lo || hi <= indexes[k]
  }

  lemma RangeIsAdded(indexes: seq<nat>, start: nat, lo: nat, hi: nat, a: nat, b: nat)
    requires Distinct(indexes) && Within(indexes, start, lo) && Outside(indexes, a, b)
    requires start <= lo <= hi && (hi <= a || b <= lo)
    ensures var added := indexes + Range(lo, hi);
      Distinct(added) && Within(added, start, hi) && Outside(added, a, b)
  {
    RangeHolds(lo, hi);
    hide Range;
    assert forall k | 0 <= k < |Range(lo, hi)| :: Range(lo, hi)[k] !in indexes;
    DistinctConcat(indexes, Range(lo, hi));
  }

  lemma NoSiblings(part: Part, named: bool, start: nat, root: nat, hi: nat, a: nat, b: nat)
    ensures var siblings := SiblingIndexes(part, named, start, root, 0);
      Distinct(siblings) && Within(siblings, start, hi) && Outside(siblings, a, b)
  {
  }

  lemma WithinWidens(indexes: seq<nat>, lo: nat, mid: nat, hi: nat)
    requires Within(indexes, lo, mid) && mid <= hi
    ensures Within(indexes, lo, hi)
  {
  }

  /** Siblings' indexes are distinct, and none of them is the root's. */
  lemma {:induction false} SiblingsAreElsewhere(part: Part, named: bool, start: nat, root: nat, n: nat)
    requires n <= |part.children| && root < |part.children|
    ensures var siblings := SiblingIndexes(part, named, start, root, n);
      && Distinct(siblings) && Within(siblings, start, ChildStart(part, named, start, n))
      && Outside(siblings, ChildStart(part, named, start, root), ChildStart(part, named, start, root + 1))
    decreases n
  {
    hide ChildStart, Range, Distinct, Within, Outside;
    var a := ChildStart(part, named, start, root);
    var b := ChildStart(part, named, start, root + 1);
    if n == 0 {
      NoSiblings(part, named, start, root, ChildStart(part, named, start, n), a, b);
    } else {
      SiblingsAreElsewhere(part, named, start, root, n - 1);
      var lo := ChildStart(part, named, start, n - 1);
      var hi := ChildStart(part, named, start, n);
      ChildStartsGrow(part, named, start, n - 1, n);
      if n - 1 == root {
        WithinWidens(SiblingIndexes(part, named, start, root, n - 1), start, lo, hi);
        assert SiblingIndexes(part, named, start, root, n) == SiblingIndexes(part, named, start, root, n - 1);
      } else {
        if n - 1 < root {
          ChildStartsGrow(part, named, start, n, root);
        } else {
          ChildStartsGrow(part, named, start, root + 1, n - 1);
        }
        RangeIsAdded(SiblingIndexes(part, named, start, root, n - 1), start, lo, hi, a, b);
      }
    }
  }

  lemma StartOfFirst(part: Part, named: bool, start: nat)
    ensures ChildStart(part, named, start, 0) == start
  {
  }

  /** A related container lists its own attachments after those the scope had:
      nothing is dropped as already seen, so nearer containers come first. */
  lemma RelatedAppendsSiblings(part: Part, named: bool, start: nat, scopes: seq<Scope>)
    requires part.children != []
    requires var root := RelatedRoot(part);
      AreAllocated(scopes, ChildStart(part, named, start, root), ChildStart(part, named, start, root + 1))
    ensures var siblings := SiblingIndexes(part, named, start, RelatedRoot(part), |part.children|);
      var extended := WithSiblings(scopes, siblings);
      && |extended| == |scopes|
      && (forall k | 0 <= k < |scopes| :: extended[k] == scopes[k].(indexes := Some(IndexesOf(scopes[k]) + siblings)))
      && AreAllocated(extended, start, ChildStart(part, named, start, |part.children|))
  {
    hide RelatedRoot, SiblingIndexes, ChildStart, IndexesOf;
    var n := |part.children|;
    var root := RelatedRoot(part);
    RootIsAChild(part);
    var siblings := SiblingIndexes(part, named, start, root, n);
    SiblingsAreElsewhere(part, named, start, root, n);
    ChildStartsGrow(part, named, start, 0, root);
    ChildStartsGrow(part, named, start, root, root + 1);
    ChildStartsGrow(part, named, start, root + 1, n);
    StartOfFirst(part, named, start);
    var extended := WithSiblings(scopes, siblings);
    forall k | 0 <= k < |scopes|
      ensures extended[k] == scopes[k].(indexes := Some(IndexesOf(scopes[k]) + siblings))
      ensures Distinct(IndexesOf(extended[k]))
      ensures Within(IndexesOf(extended[k]), start, ChildStart(part, named, start, n))
    {
      var indexes := IndexesOf(scopes[k]);
      PushNewAppends(indexes, siblings);
      DistinctConcat(indexes, siblings);
      IndexesOfSome(extended[k]);
    }
  }

  /** What a related container shows: the scopes of its root child, each list
      continued by the container's other attachments in order. */
  lemma NearestContainerFirst(part: Part, named: bool, start: nat)
    requires part.children != [] && KindOf(part.mimetype).Related? && !IsExplicitAttachment(part, named)
    ensures var root := RelatedRoot(part);
      var inner := ChildHtml(part, named, start, root);
      var outer := SelectedHtml(part, named, start);
      var siblings := SiblingIndexes(part, named, start, root, |part.children|);
      && outer.html == inner.html && |outer.scopes| == |inner.scopes|
      && forall k | 0 <= k < |inner.scopes| ::
           outer.scopes[k] == inner.scopes[k].(indexes := Some(IndexesOf(inner.scopes[k]) + siblings))
  {
    var root := RelatedRoot(part);
    var inner := ChildHtml(part, named, start, root);
    RootIsAChild(part);
    ChildrenAreSound(part, named, start, |part.children|);
    SoundHtmlHasScopes(inner, ChildStart(part, named, start, root), ChildStart(part, named, start, root + 1));
    RelatedAppendsSiblings(part, named, start, inner.scopes);
    hide RelatedRoot, SiblingIndexes, ChildStart, IndexesOf, ChildHtml, WithSiblings, Sound, KindOf;
  }

  lemma SoundHtmlHasScopes(body: HtmlBody, lo: nat, hi: nat)
    requires Sound(body, lo, hi)
    ensures AreAllocated(body.scopes, lo, hi)
    ensures body.html.Some? <==> body.scopes != []
  {
  }

  lemma IndexesOfSome(scope: Scope)
    requires scope.indexes.Some?
    ensures IndexesOf(scope) == scope.indexes.value
  {
  }

  lemma RootIsAChild(part: Part)
    requires part.children != []
    ensures RelatedRoot(part) < |part.children|
  {
  }

  lemma ChildIsSoundInside(part: Part, named: bool, start: nat, n: nat)
    requires n < |part.children|
    requires Sound(ChildHtml(part, named, start, n), ChildStart(part, named, start, n),
                   ChildStart(part, named, start, n + 1))
    ensures Sound(ChildHtml(part, named, start, n), start, ChildStart(part, named, start, |part.children|))
  {
    hide Sound, ChildHtml, ChildStart;
    StartOfFirst(part, named, start);
    ChildStartsGrow(part, named, start, 0, n);
    ChildStartsGrow(part, named, start, n + 1, |part.children|);
    SoundWidens(ChildHtml(part, named, start, n),
                ChildStart(part, named, start, n), ChildStart(part, named, start, n + 1),
                start, ChildStart(part, named, start, |part.children|));
  }

  /** The scopes of a tree's HTML tile it from its first byte to its last, and
      each lists, without repetition, attachments the tree itself holds. */
  lemma {:induction false} SelectedHtmlIsSound(part: Part, named: bool, start: nat)
    ensures Sound(SelectedHtml(part, named, start), start, start + |Leaves(part, named)|)
    decreases part, 1
  {
    hide Sound, Leaves, ChildHtml, LastHtml, JoinedHtml, WithSiblings;
    LeafHtmlIsSound(start, start + |Leaves(part, named)|, part.body);
    if part.children != [] {
      LeavesOfContainer(part, named, start);
      ChildrenAreSound(part, named, start, |part.children|);
      if KindOf(part.mimetype).Related? && !IsExplicitAttachment(part, named) {
        RelatedIsSound(part, named, start);
      }
    }
  }

  lemma LeavesOfContainer(part: Part, named: bool, start: nat)
    requires part.children != []
    ensures start + |Leaves(part, named)| == ChildStart(part, named, start, |part.children|)
  {
  }

  lemma LeafHtmlIsSound(lo: nat, hi: nat, body: Body)
    ensures Sound(NO_HTML, lo, hi)
    ensures body.Text? ==> Sound(HtmlBody(Some(body.text), [Scope(0, ByteLength(body.text), None)]), lo, hi)
  {
  }

  /** Each child's HTML is sound, and so is what the first children select or join to. */
  lemma {:induction false} ChildrenAreSound(part: Part, named: bool, start: nat, n: nat)
    requires n <= |part.children|
    ensures var end := ChildStart(part, named, start, |part.children|);
      && (forall k | 0 <= k < n ::
            Sound(ChildHtml(part, named, start, k), ChildStart(part, named, start, k),
                  ChildStart(part, named, start, k + 1)))
      && (forall k | 0 <= k < n :: Sound(ChildHtml(part, named, start, k), start, end))
      && Sound(LastHtml(part, named, start, n), start, end)
      && Sound(JoinedHtml(part, named, start, n), start, end)
    decreases part, 0, n
  {
    hide Sound, SelectedHtml, Appended, Leaves;
    var end := ChildStart(part, named, start, |part.children|);
    LeafHtmlIsSound(start, end, BadText);
    if n > 0 {
      ChildrenAreSound(part, named, start, n - 1);
      SelectedHtmlIsSound(part.children[n - 1], NamedBodyAllowedForChild(part, named, n - 1),
                          ChildStart(part, named, start, n - 1));
      ChildIsSoundInside(part, named, start, n - 1);
      AppendedIsSound(JoinedHtml(part, named, start, n - 1), ChildHtml(part, named, start, n - 1), start, end);
    }
  }

  lemma RelatedIsSound(part: Part, named: bool, start: nat)
    requires part.children != []
    requires var root := RelatedRoot(part);
      Sound(ChildHtml(part, named, start, root), ChildStart(part, named, start, root),
            ChildStart(part, named, start, root + 1))
    ensures var root := RelatedRoot(part);
      var selected := ChildHtml(part, named, start, root);
      selected.html.Some? ==>
        Sound(selected.(scopes := WithSiblings(ScopesOf(selected.html.value, selected.scopes),
                                               SiblingIndexes(part, named, start, root, |part.children|))),
              start, ChildStart(part, named, start, |part.children|))
  {
    hide RelatedRoot, SiblingIndexes, ChildStart, IndexesOf, ChildHtml, AreAllocated;
    RootIsAChild(part);
    var root := RelatedRoot(part);
    var selected := ChildHtml(part, named, start, root);
    if selected.html.Some? {
      RelatedAppendsSiblings(part, named, start, selected.scopes);
      var siblings := SiblingIndexes(part, named, start, root, |part.children|);
      TilesAlike(selected.scopes, WithSiblings(selected.scopes, siblings), 0, ByteLength(selected.html.value));
    }
  }

  lemma TilesAlike(a: seq<Scope>, b: seq<Scope>, from: nat, to: nat)
    requires Tiles(a, from, to) && |a| == |b|
    requires forall k | 0 <= k < |a| :: b[k].start == a[k].start && b[k].end == a[k].end
    ensures Tiles(b, from, to)
  {
  }
}
