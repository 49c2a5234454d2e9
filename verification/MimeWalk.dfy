// The two walks over a MIME tree: parsing, which also reads the bodies, and
// extraction, which decodes attachments only. Each numbers attachments with its
// own counter; both agree with the tree's list of attachments.
module MimeWalk {
  import opened MailText
  import opened MimeTree
  import opened CidScopes

  datatype Attachment = Attachment(
    partIndex: nat, filename: string, contentType: string, contentId: Option<string>, size: nat, decoded: bool)

  datatype Extracted = Extracted(
    partIndex: nat, filename: string, contentType: string, contentId: Option<string>, bytes: string)

  datatype Failure = Failure(partIndex: nat, filename: string, contentType: string)

  // ---- What the walks report

  function AttachmentOf(leaf: Part, index: nat): Attachment {
    Attachment(index, FilenameOf(leaf), leaf.mimetype, leaf.contentId, AttachmentCharge(leaf).size,
               leaf.outcome.Decoded?)
  }

  /** Leaves numbered consecutively. */
  function Numbered(leaves: seq<Part>, start: nat): seq<Attachment> {
    if leaves == [] then []
    else Numbered(leaves[..|leaves| - 1], start) + [AttachmentOf(leaves[|leaves| - 1], start + |leaves| - 1)]
  }

  ghost predicate IsSelected(selected: Option<set<nat>>, index: nat) {
    selected.Some? ==> index in selected.value
  }

  ghost function ExtractedOf(leaves: seq<Part>, start: nat, selected: Option<set<nat>>): seq<Extracted> {
    if leaves == [] then []
    else
      var leaf := leaves[|leaves| - 1];
      var index := start + |leaves| - 1;
      ExtractedOf(leaves[..|leaves| - 1], start, selected)
      + if IsSelected(selected, index) && leaf.outcome.Decoded?
        then [Extracted(index, FilenameOf(leaf), leaf.mimetype, leaf.contentId, leaf.outcome.bytes)] else []
  }

  ghost function FailuresOf(leaves: seq<Part>, start: nat, selected: Option<set<nat>>): seq<Failure> {
    if leaves == [] then []
    else
      var leaf := leaves[|leaves| - 1];
      var index := start + |leaves| - 1;
      FailuresOf(leaves[..|leaves| - 1], start, selected)
      + if IsSelected(selected, index) && leaf.outcome.Undecodable?
        then [Failure(index, FilenameOf(leaf), leaf.mimetype)] else []
  }

  ghost function ChargesOf(leaves: seq<Part>, start: nat, selected: Option<set<nat>>): seq<Charge> {
    if leaves == [] then []
    else
      ChargesOf(leaves[..|leaves| - 1], start, selected)
      + if IsSelected(selected, start + |leaves| - 1) then [AttachmentCharge(leaves[|leaves| - 1])] else []
  }

  lemma {:induction false} NumberedConcat(a: seq<Part>, b: seq<Part>, start: nat)
    ensures Numbered(a + b, start) == Numbered(a, start) + Numbered(b, start + |a|)
    decreases |b|
  {
    hide AttachmentOf;
    if b == [] {
      assert a + b == a;
    } else {
      NumberedConcat(a, b[..|b| - 1], start);
      assert (a + b)[..|a + b| - 1] == a + b[..|b| - 1];
    }
  }

  lemma {:induction false} ExtractedConcat(a: seq<Part>, b: seq<Part>, start: nat, selected: Option<set<nat>>)
    ensures ExtractedOf(a + b, start, selected) ==
      ExtractedOf(a, start, selected) + ExtractedOf(b, start + |a|, selected)
    decreases |b|
  {
    hide IsSelected, FilenameOf, AttachmentCharge;
    if b == [] {
      assert a + b == a;
    } else {
      ExtractedConcat(a, b[..|b| - 1], start, selected);
      assert (a + b)[..|a + b| - 1] == a + b[..|b| - 1];
    }
  }

  lemma {:induction false} FailuresConcat(a: seq<Part>, b: seq<Part>, start: nat, selected: Option<set<nat>>)
    ensures FailuresOf(a + b, start, selected) == FailuresOf(a, start, selected) + FailuresOf(b, start + |a|, selected)
    decreases |b|
  {
    hide IsSelected, FilenameOf, AttachmentCharge;
    if b == [] {
      assert a + b == a;
    } else {
      FailuresConcat(a, b[..|b| - 1], start, selected);
      assert (a + b)[..|a + b| - 1] == a + b[..|b| - 1];
    }
  }

  lemma {:induction false} ChargesConcat(a: seq<Part>, b: seq<Part>, start: nat, selected: Option<set<nat>>)
    ensures ChargesOf(a + b, start, selected) == ChargesOf(a, start, selected) + ChargesOf(b, start + |a|, selected)
    decreases |b|
  {
    hide IsSelected, FilenameOf, AttachmentCharge;
    if b == [] {
      assert a + b == a;
    } else {
      ChargesConcat(a, b[..|b| - 1], start, selected);
      assert (a + b)[..|a + b| - 1] == a + b[..|b| - 1];
    }
  }

  lemma ReportConcat(a: seq<Part>, b: seq<Part>, start: nat, selected: Option<set<nat>>)
    ensures ExtractedOf(a + b, start, selected) ==
      ExtractedOf(a, start, selected) + ExtractedOf(b, start + |a|, selected)
    ensures FailuresOf(a + b, start, selected) == FailuresOf(a, start, selected) + FailuresOf(b, start + |a|, selected)
    ensures ChargesOf(a + b, start, selected) == ChargesOf(a, start, selected) + ChargesOf(b, start + |a|, selected)
  {
    hide *;
    ExtractedConcat(a, b, start, selected);
    FailuresConcat(a, b, start, selected);
    ChargesConcat(a, b, start, selected);
  }

  // ---- Parsing

  /** What parsing has counted and listed so far. */
  datatype Progress = Progress(total: nat, next: nat, attachments: seq<Attachment>)

  function Advanced(from: Progress, charges: seq<Charge>, leaves: seq<Part>): Progress {
    Progress(from.total + TotalSize(charges), from.next + |leaves|, from.attachments + Numbered(leaves, from.next))
  }

  function After(part: Part, named: bool, from: Progress): Progress {
    Advanced(from, ParseCharges(part, named), Leaves(part, named))
  }

  function AfterFirst(part: Part, named: bool, n: nat, from: Progress): Progress
    requires n <= |part.children|
  {
    Advanced(from, ParseChargesOfFirst(part, named, n), LeavesOfFirst(part, named, n))
  }

  ghost predicate FirstAreAffordable(part: Part, named: bool, n: nat, limits: DecodeLimits, used: nat)
    requires n <= |part.children|
  {
    Affordable(ParseChargesOfFirst(part, named, n), limits, used)
  }

  class ParseState {
    const limits: DecodeLimits
    var totalDecodedBytes: nat
    var nextAttachmentIndex: nat
    var attachments: seq<Attachment>

    ghost predicate Valid()
      reads this
    {
      totalDecodedBytes <= limits.maxTotal
    }

    ghost function Contents(): Progress
      reads this
    {
      Progress(totalDecodedBytes, nextAttachmentIndex, attachments)
    }

    constructor (limits: DecodeLimits)
      ensures Valid() && this.limits == limits
      ensures Contents() == Progress(0, 0, [])
    {
      this.limits := limits;
      totalDecodedBytes, nextAttachmentIndex, attachments := 0, 0, [];
    }

    method ReserveDecoded(bytes: nat) returns (ok: bool)
      requires Valid()
      modifies this`totalDecodedBytes
      ensures Valid()
      ensures ok <==> bytes <= limits.maxPart && old(totalDecodedBytes) + bytes <= limits.maxTotal
      ensures totalDecodedBytes == old(totalDecodedBytes) + if ok then bytes else 0
    {
      if bytes > limits.maxPart || totalDecodedBytes + bytes > limits.maxTotal {
        return false;
      }
      totalDecodedBytes := totalDecodedBytes + bytes;
      return true;
    }

    /** A leaf: an attachment to number, a body to read, or neither. */
    method WalkLeaf(part: Part, named: bool) returns (r: Option<HtmlBody>)
      requires Valid() && part.children == []
      modifies this
      ensures Valid()
      ensures r.Some? <==> Affordable(ParseCharges(part, named), limits, old(totalDecodedBytes))
      ensures r.Some? ==> Contents() == After(part, named, old(Contents()))
      ensures r.Some? ==> r.value == SelectedHtml(part, named, old(nextAttachmentIndex))
    {
      if IsAttachmentLike(part, named) {
        AffordableOne(AttachmentCharge(part), limits, totalDecodedBytes);
        if part.upperBound > limits.maxPart {
          return None;
        }
        var partIndex := nextAttachmentIndex;
        nextAttachmentIndex := nextAttachmentIndex + 1;
        if part.outcome.Decoded? {
          var ok := ReserveDecoded(|part.outcome.bytes|);
          if !ok {
            return None;
          }
          attachments := attachments
            + [Attachment(partIndex, FilenameOf(part), part.mimetype, part.contentId, |part.outcome.bytes|, true)];
        } else {
          attachments := attachments
            + [Attachment(partIndex, FilenameOf(part), part.mimetype, part.contentId, 0, false)];
        }
        NumberedOne(part, partIndex);
        return Some(NO_HTML);
      }
      if part.cryptoRelated || part.body.BadEncoding? {
        return Some(NO_HTML);
      }
      AffordableOne(ParseCharges(part, named)[0], limits, totalDecodedBytes);
      if part.upperBound > limits.maxPart {
        return None;
      }
      if part.body.BadText? {
        return Some(NO_HTML);
      }
      var ok := ReserveDecoded(ByteLength(part.body.text));
      if !ok {
        return None;
      }
      if KindOf(part.mimetype).Html? {
        return Some(HtmlBody(Some(part.body.text), [Scope(0, ByteLength(part.body.text), None)]));
      }
      return Some(NO_HTML);
    }

    /** Succeeds exactly when everything the tree decodes is affordable; then the
        attachments are the tree's, numbered in order, and the HTML the tree's. */
    method WalkPart(part: Part, named: bool) returns (r: Option<HtmlBody>)
      requires Valid()
      modifies this
      ensures Valid()
      ensures r.Some? <==> Affordable(ParseCharges(part, named), limits, old(totalDecodedBytes))
      ensures r.Some? ==> Contents() == After(part, named, old(Contents()))
      ensures r.Some? ==> r.value == SelectedHtml(part, named, old(nextAttachmentIndex))
      decreases part
    {
      hide Numbered, TotalSize, Leaves, LeavesOfFirst, ParseChargesOfFirst, Advanced;
      if part.children == [] {
        r := WalkLeaf(part, named);
        return;
      }
      ghost var from := Contents();
      var count := |part.children|;
      var selections: seq<HtmlBody> := [];
      var starts: seq<nat> := [];
      ContainerUnfolds(part, named, limits, from);
      NothingWalked(part, named, limits, from);
      hide After, AfterFirst, FirstAreAffordable, Affordable, ParseCharges, SelectedHtml, ChildHtml, ChildStart,
           NamedBodyAllowedForChild, IsExplicitAttachment;
      for k := 0 to count
        invariant Valid()
        invariant |selections| == |starts| == k
        invariant FirstAreAffordable(part, named, k, limits, from.total)
        invariant Contents() == AfterFirst(part, named, k, from)
        invariant forall j | 0 <= j < k :: selections[j] == ChildHtml(part, named, from.next, j)
        invariant forall j | 0 <= j < k :: starts[j] == ChildStart(part, named, from.next, j)
      {
        OneMoreWalked(part, named, k, limits, from);
        StartIs(part, named, k, from);
        starts := starts + [nextAttachmentIndex];
        var selection := WalkPart(part.children[k], NamedBodyAllowedForChild(part, named, k));
        if selection.None? {
          OneTooMuchSpoils(part, named, k + 1, limits, from.total);
          return None;
        }
        selections := selections + [selection.value];
      }
      StartIs(part, named, count, from);
      starts := starts + [nextAttachmentIndex];
      if IsExplicitAttachment(part, named) {
        return Some(NO_HTML);
      }
      var selected := SelectMultipartBody(part, named, from.next, selections, starts);
      return Some(selected);
    }
  }

  lemma NumberedOne(part: Part, index: nat)
    ensures Numbered([part], index) == [AttachmentOf(part, index)]
  {
    assert [part][..0] == [];
    assert Numbered([part][..0], index) == [];
  }

  lemma ContainerUnfolds(part: Part, named: bool, limits: DecodeLimits, from: Progress)
    requires part.children != []
    ensures After(part, named, from) == AfterFirst(part, named, |part.children|, from)
    ensures Affordable(ParseCharges(part, named), limits, from.total) <==>
            FirstAreAffordable(part, named, |part.children|, limits, from.total)
    ensures IsExplicitAttachment(part, named) ==> SelectedHtml(part, named, from.next) == NO_HTML
  {
  }

  lemma NothingWalked(part: Part, named: bool, limits: DecodeLimits, from: Progress)
    requires from.total <= limits.maxTotal
    ensures FirstAreAffordable(part, named, 0, limits, from.total)
    ensures AfterFirst(part, named, 0, from) == from
  {
    assert from.attachments + [] == from.attachments;
  }

  lemma StartIs(part: Part, named: bool, k: nat, from: Progress)
    requires k <= |part.children|
    ensures ChildStart(part, named, from.next, k) == AfterFirst(part, named, k, from).next
  {
  }

  lemma AdvancedTwice(from: Progress, charges: seq<Charge>, charges': seq<Charge>, leaves: seq<Part>,
                      leaves': seq<Part>)
    ensures Advanced(Advanced(from, charges, leaves), charges', leaves') ==
            Advanced(from, charges + charges', leaves + leaves')
  {
    TotalSizeConcat(charges, charges');
    NumberedConcat(leaves, leaves', from.next);
    hide TotalSize, Numbered;
    assert from.attachments + Numbered(leaves, from.next) + Numbered(leaves', from.next + |leaves|) ==
           from.attachments + (Numbered(leaves, from.next) + Numbered(leaves', from.next + |leaves|));
  }

  lemma FirstUnfold(part: Part, named: bool, k: nat)
    requires k < |part.children|
    ensures var child := part.children[k];
      var childNamed := NamedBodyAllowedForChild(part, named, k);
      && ParseChargesOfFirst(part, named, k + 1)
           == ParseChargesOfFirst(part, named, k) + ParseCharges(child, childNamed)
      && LeavesOfFirst(part, named, k + 1) == LeavesOfFirst(part, named, k) + Leaves(child, childNamed)
  {
    hide NamedBodyAllowedForChild, ParseCharges, Leaves;
  }

  /** Walking one more child advances by exactly that child. */
  lemma OneMoreWalked(part: Part, named: bool, k: nat, limits: DecodeLimits, from: Progress)
    requires k < |part.children|
    ensures var child := part.children[k];
      var childNamed := NamedBodyAllowedForChild(part, named, k);
      var before := AfterFirst(part, named, k, from);
      && After(child, childNamed, before) == AfterFirst(part, named, k + 1, from)
      && (FirstAreAffordable(part, named, k + 1, limits, from.total) <==>
          FirstAreAffordable(part, named, k, limits, from.total)
          && Affordable(ParseCharges(child, childNamed), limits, before.total))
      && ChildHtml(part, named, from.next, k) == SelectedHtml(child, childNamed, before.next)
  {
    hide NamedBodyAllowedForChild, ParseCharges, Leaves, ParseChargesOfFirst, LeavesOfFirst, SelectedHtml, Affordable,
         TotalSize, Numbered;
    var child := part.children[k];
    var childNamed := NamedBodyAllowedForChild(part, named, k);
    FirstUnfold(part, named, k);
    AdvancedTwice(from, ParseChargesOfFirst(part, named, k), ParseCharges(child, childNamed),
                  LeavesOfFirst(part, named, k), Leaves(child, childNamed));
    AffordableConcat(ParseChargesOfFirst(part, named, k), ParseCharges(child, childNamed), limits, from.total);
  }

  lemma {:induction false} OneTooMuchSpoils(part: Part, named: bool, k: nat, limits: DecodeLimits, used: nat)
    requires k <= |part.children| && !FirstAreAffordable(part, named, k, limits, used)
    ensures !FirstAreAffordable(part, named, |part.children|, limits, used)
    decreases |part.children| - k
  {
    hide Affordable, TotalSize, NamedBodyAllowedForChild, ParseCharges, Leaves, ParseChargesOfFirst;
    if k < |part.children| {
      FirstUnfold(part, named, k);
      AffordableConcat(ParseChargesOfFirst(part, named, k),
                       ParseCharges(part.children[k], NamedBodyAllowedForChild(part, named, k)), limits, used);
      OneTooMuchSpoils(part, named, k + 1, limits, used);
    }
  }

  // ---- Selecting a container's body

  ghost predicate AreChildrenOf(part: Part, named: bool, start: nat, selections: seq<HtmlBody>, starts: seq<nat>) {
    && |selections| == |part.children| && |starts| == |part.children| + 1
    && (forall k | 0 <= k < |selections| :: selections[k] == ChildHtml(part, named, start, k))
    && (forall k | 0 <= k < |starts| :: starts[k] == ChildStart(part, named, start, k))
  }

  /** The body of a container, from its children's bodies and attachment ranges. */
  method SelectMultipartBody(part: Part, ghost named: bool, ghost start: nat, selections: seq<HtmlBody>,
                             starts: seq<nat>)
    returns (selected: HtmlBody)
    requires part.children != [] && !IsExplicitAttachment(part, named)
    requires AreChildrenOf(part, named, start, selections, starts)
    ensures selected == SelectedHtml(part, named, start)
  {
    SelectedUnfolds(part, named, start);
    hide SelectedHtml, ChildHtml, ChildStart, LastHtml, JoinedHtml, SiblingIndexes, RelatedRoot, IsExplicitAttachment,
         KindOf;
    match KindOf(part.mimetype) {
      case Alternative =>
        selected := SelectAlternative(part, named, start, selections, starts);
      case Related =>
        var root := RelatedRoot(part);
        RootIsAChild(part);
        selected := selections[root];
        if selected.html.Some? {
          var scopes := ScopesOf(selected.html.value, selected.scopes);
          var siblings := SiblingRanges(part, named, start, selections, starts, root);
          selected := selected.(scopes := WithSiblings(scopes, siblings));
        }
      case Signed =>
        selected := selections[0];
      case Encrypted =>
        selected := NO_HTML;
      case _ =>
        selected := JoinSelections(part, named, start, selections, starts);
    }
  }

  method SelectAlternative(part: Part, ghost named: bool, ghost start: nat, selections: seq<HtmlBody>,
                           ghost starts: seq<nat>)
    returns (selected: HtmlBody)
    requires AreChildrenOf(part, named, start, selections, starts)
    ensures selected == LastHtml(part, named, start, |part.children|)
  {
    hide ChildHtml, ChildStart;
    selected := NO_HTML;
    for k := 0 to |selections|
      invariant selected == LastHtml(part, named, start, k)
    {
      if selections[k].html.Some? {
        selected := selections[k];
      }
    }
  }

  method SiblingRanges(part: Part, ghost named: bool, ghost start: nat, ghost selections: seq<HtmlBody>,
                       starts: seq<nat>, root: nat)
    returns (siblings: seq<nat>)
    requires AreChildrenOf(part, named, start, selections, starts)
    ensures siblings == SiblingIndexes(part, named, start, root, |part.children|)
  {
    hide ChildHtml, ChildStart, Range;
    siblings := [];
    for k := 0 to |part.children|
      invariant siblings == SiblingIndexes(part, named, start, root, k)
    {
      if k != root {
        siblings := siblings + Range(starts[k], starts[k + 1]);
      } else {
        assert siblings + [] == siblings;
      }
    }
  }

  method JoinSelections(part: Part, ghost named: bool, ghost start: nat, selections: seq<HtmlBody>,
                        ghost starts: seq<nat>)
    returns (selected: HtmlBody)
    requires AreChildrenOf(part, named, start, selections, starts)
    ensures selected == JoinedHtml(part, named, start, |part.children|)
  {
    hide ChildHtml, ChildStart, Appended;
    var destination := new HtmlDestination();
    for k := 0 to |selections|
      invariant fresh(destination)
      invariant destination.Contents() == JoinedHtml(part, named, start, k)
    {
      destination.AppendHtmlBody(selections[k].html, selections[k].scopes);
    }
    selected := HtmlBody(destination.html, destination.scopes);
  }

  lemma SelectedUnfolds(part: Part, named: bool, start: nat)
    requires part.children != [] && !IsExplicitAttachment(part, named)
    ensures RelatedRoot(part) < |part.children|
    ensures SelectedHtml(part, named, start) ==
      match KindOf(part.mimetype)
      case Alternative => LastHtml(part, named, start, |part.children|)
      case Related =>
        var root := RelatedRoot(part);
        var selected := ChildHtml(part, named, start, root);
        if selected.html.None? then selected
        else selected.(scopes := WithSiblings(ScopesOf(selected.html.value, selected.scopes),
                                              SiblingIndexes(part, named, start, root, |part.children|)))
      case Signed => ChildHtml(part, named, start, 0)
      case Encrypted => NO_HTML
      case _ => JoinedHtml(part, named, start, |part.children|)
  {
    RootIsAChild(part);
  }
}
