// Extracting attachments, all or selected, and what makes its report agree with
// the parse of the same message.
module MimeExtraction {
  import opened MailText
  import opened MimeTree
  import opened MimeWalk

  /** What extraction has counted and reported so far. */
  datatype Report = Report(total: nat, next: nat, attachments: seq<Extracted>, failures: seq<Failure>)

  ghost function Reported(from: Report, leaves: seq<Part>, selected: Option<set<nat>>): Report {
    Report(from.total + TotalSize(ChargesOf(leaves, from.next, selected)),
           from.next + |leaves|,
           from.attachments + ExtractedOf(leaves, from.next, selected),
           from.failures + FailuresOf(leaves, from.next, selected))
  }

  ghost predicate LeavesAreAffordable(leaves: seq<Part>, start: nat, selected: Option<set<nat>>, limits: DecodeLimits,
                                      used: nat)
  {
    Affordable(ChargesOf(leaves, start, selected), limits, used)
  }

  lemma ReportedTwice(from: Report, a: seq<Part>, b: seq<Part>, selected: Option<set<nat>>, limits: DecodeLimits)
    ensures Reported(Reported(from, a, selected), b, selected) == Reported(from, a + b, selected)
    ensures LeavesAreAffordable(a + b, from.next, selected, limits, from.total) <==>
            && LeavesAreAffordable(a, from.next, selected, limits, from.total)
            && var middle := Reported(from, a, selected);
               LeavesAreAffordable(b, middle.next, selected, limits, middle.total)
  {
    hide ExtractedOf, FailuresOf, ChargesOf, Affordable, TotalSize;
    var start := from.next;
    ReportConcat(a, b, start, selected);
    TotalSizeConcat(ChargesOf(a, start, selected), ChargesOf(b, start + |a|, selected));
    AffordableConcat(ChargesOf(a, start, selected), ChargesOf(b, start + |a|, selected), limits, from.total);
    assert from.attachments + ExtractedOf(a, start, selected) + ExtractedOf(b, start + |a|, selected) ==
           from.attachments + (ExtractedOf(a, start, selected) + ExtractedOf(b, start + |a|, selected));
    assert from.failures + FailuresOf(a, start, selected) + FailuresOf(b, start + |a|, selected) ==
           from.failures + (FailuresOf(a, start, selected) + FailuresOf(b, start + |a|, selected));
  }

  lemma ReportOfOne(leaf: Part, start: nat, selected: Option<set<nat>>)
    ensures ExtractedOf([leaf], start, selected) ==
            if IsSelected(selected, start) && leaf.outcome.Decoded?
            then [Extracted(start, FilenameOf(leaf), leaf.mimetype, leaf.contentId, leaf.outcome.bytes)] else []
    ensures FailuresOf([leaf], start, selected) ==
            if IsSelected(selected, start) && leaf.outcome.Undecodable?
            then [Failure(start, FilenameOf(leaf), leaf.mimetype)] else []
    ensures ChargesOf([leaf], start, selected) ==
            if IsSelected(selected, start) then [AttachmentCharge(leaf)] else []
  {
    assert [leaf][..0] == [];
    assert ExtractedOf([leaf][..0], start, selected) == [];
    assert FailuresOf([leaf][..0], start, selected) == [];
    assert ChargesOf([leaf][..0], start, selected) == [];
  }

  /** What a leaf adds to the report. */
  lemma LeafReport(part: Part, named: bool, from: Report, selected: Option<set<nat>>, limits: DecodeLimits)
    requires part.children == [] && from.total <= limits.maxTotal
    ensures var reported := Reported(from, Leaves(part, named), selected);
      var affordable := LeavesAreAffordable(Leaves(part, named), from.next, selected, limits, from.total);
      var charge := AttachmentCharge(part);
      if !IsAttachmentLike(part, named) then reported == from && affordable
      else if !IsSelected(selected, from.next) then reported == from.(next := from.next + 1) && affordable
      else
        && (affordable <==> charge.bound <= limits.maxPart && charge.size <= limits.maxPart
                            && from.total + charge.size <= limits.maxTotal)
        && reported == Report(
             from.total + charge.size,
             from.next + 1,
             from.attachments
             + if part.outcome.Decoded?
               then [Extracted(from.next, FilenameOf(part), part.mimetype, part.contentId, part.outcome.bytes)] else [],
             from.failures
             + if part.outcome.Decoded? then [] else [Failure(from.next, FilenameOf(part), part.mimetype)])
  {
    hide FilenameOf, ExtractedOf, FailuresOf, ChargesOf, Affordable, TotalSize;
    ReportOfOne(part, from.next, selected);
    AffordableOne(AttachmentCharge(part), limits, from.total);
    NothingIsAffordable(from, selected, limits);
    assert from.attachments + [] == from.attachments && from.failures + [] == from.failures;
  }

  lemma NothingIsAffordable(from: Report, selected: Option<set<nat>>, limits: DecodeLimits)
    requires from.total <= limits.maxTotal
    ensures ChargesOf([], from.next, selected) == [] && ExtractedOf([], from.next, selected) == []
    ensures FailuresOf([], from.next, selected) == []
    ensures Affordable([], limits, from.total) && TotalSize([]) == 0
  {
  }

  class Extraction {
    const limits: DecodeLimits
    var totalDecodedBytes: nat
    var nextPartIndex: nat
    var attachments: seq<Extracted>
    var failures: seq<Failure>

    ghost predicate Valid()
      reads this
    {
      totalDecodedBytes <= limits.maxTotal
    }

    ghost function Contents(): Report
      reads this
    {
      Report(totalDecodedBytes, nextPartIndex, attachments, failures)
    }

    constructor (limits: DecodeLimits)
      ensures Valid() && this.limits == limits
      ensures Contents() == Report(0, 0, [], [])
    {
      this.limits := limits;
      totalDecodedBytes, nextPartIndex, attachments, failures := 0, 0, [], [];
    }

    method CollectLeaf(part: Part, named: bool, selected: Option<set<nat>>) returns (ok: bool)
      requires Valid() && part.children == []
      modifies this
      ensures Valid()
      ensures ok <==>
        LeavesAreAffordable(Leaves(part, named), old(nextPartIndex), selected, limits, old(totalDecodedBytes))
      ensures ok ==> Contents() == Reported(old(Contents()), Leaves(part, named), selected)
    {
      hide Leaves, Reported, LeavesAreAffordable, IsAttachmentLike, FilenameOf;
      LeafReport(part, named, Contents(), selected, limits);
      if !IsAttachmentLike(part, named) {
        return true;
      }
      var partIndex := nextPartIndex;
      nextPartIndex := nextPartIndex + 1;
      if selected.Some? && partIndex !in selected.value {
        return true;
      }
      var filename := FilenameOf(part);
      if part.upperBound > limits.maxPart {
        return false;
      }
      if part.outcome.Decoded? {
        var size := |part.outcome.bytes|;
        if size > limits.maxPart || totalDecodedBytes + size > limits.maxTotal {
          return false;
        }
        totalDecodedBytes := totalDecodedBytes + size;
        attachments := attachments
          + [Extracted(partIndex, filename, part.mimetype, part.contentId, part.outcome.bytes)];
      } else {
        failures := failures + [Failure(partIndex, filename, part.mimetype)];
      }
      return true;
    }

    /** Succeeds exactly when the selected attachments are affordable; then the
        report is theirs. */
    method CollectAttachmentData(part: Part, named: bool, selected: Option<set<nat>>) returns (ok: bool)
      requires Valid()
      modifies this
      ensures Valid()
      ensures ok <==>
        LeavesAreAffordable(Leaves(part, named), old(nextPartIndex), selected, limits, old(totalDecodedBytes))
      ensures ok ==> Contents() == Reported(old(Contents()), Leaves(part, named), selected)
      decreases part
    {
      hide Leaves, Reported, LeavesAreAffordable, LeavesOfFirst, NamedBodyAllowedForChild;
      if part.children == [] {
        ok := CollectLeaf(part, named, selected);
        return;
      }
      ghost var from := Contents();
      LeavesOfParent(part, named);
      NothingReported(part, named, from, selected, limits);
      for k := 0 to |part.children|
        invariant Valid()
        invariant LeavesAreAffordable(LeavesOfFirst(part, named, k), from.next, selected, limits, from.total)
        invariant Contents() == Reported(from, LeavesOfFirst(part, named, k), selected)
      {
        var childNamed := NamedBodyAllowedForChild(part, named, k);
        FirstUnfold(part, named, k);
        ReportedTwice(from, LeavesOfFirst(part, named, k), Leaves(part.children[k], childNamed), selected, limits);
        var collected := CollectAttachmentData(part.children[k], childNamed, selected);
        if !collected {
          OneLeafTooMuch(part, named, k + 1, from, selected, limits);
          return false;
        }
      }
      return true;
    }
  }

  lemma LeavesOfParent(part: Part, named: bool)
    requires part.children != []
    ensures Leaves(part, named) == LeavesOfFirst(part, named, |part.children|)
  {
  }

  lemma NothingReported(part: Part, named: bool, from: Report, selected: Option<set<nat>>, limits: DecodeLimits)
    requires from.total <= limits.maxTotal
    ensures Reported(from, LeavesOfFirst(part, named, 0), selected) == from
    ensures LeavesAreAffordable(LeavesOfFirst(part, named, 0), from.next, selected, limits, from.total)
  {
    assert from.attachments + [] == from.attachments && from.failures + [] == from.failures;
  }

  lemma {:induction false} OneLeafTooMuch(part: Part, named: bool, k: nat, from: Report, selected: Option<set<nat>>,
                                          limits: DecodeLimits)
    requires k <= |part.children|
    requires !LeavesAreAffordable(LeavesOfFirst(part, named, k), from.next, selected, limits, from.total)
    ensures !LeavesAreAffordable(LeavesOfFirst(part, named, |part.children|), from.next, selected, limits, from.total)
    decreases |part.children| - k
  {
    hide Leaves, Reported, LeavesAreAffordable, LeavesOfFirst, NamedBodyAllowedForChild;
    if k < |part.children| {
      FirstUnfold(part, named, k);
      ReportedTwice(from, LeavesOfFirst(part, named, k),
                    Leaves(part.children[k], NamedBodyAllowedForChild(part, named, k)), selected, limits);
      OneLeafTooMuch(part, named, k + 1, from, selected, limits);
    }
  }

  // ---- Parsing and extraction number alike

  /** The name a leaf goes by: its own, or the one made up for its kind. */
  ghost predicate IsNamed(name: string, leaf: Part) {
    (leaf.filename.Some? ==> name == leaf.filename.value) && (leaf.filename.None? ==> name == leaf.fallbackName)
  }

  /** What the parse listed at a position is the leaf there, under that index. */
  lemma {:induction false} ParsedAreTheLeaves(leaves: seq<Part>, start: nat)
    ensures |Numbered(leaves, start)| == |leaves|
    ensures forall k | 0 <= k < |leaves| ::
      var (parsed, leaf) := (Numbered(leaves, start)[k], leaves[k]);
      && parsed.partIndex == start + k && IsNamed(parsed.filename, leaf) && parsed.contentType == leaf.mimetype
      && parsed.contentId == leaf.contentId && parsed.decoded == leaf.outcome.Decoded?
      && parsed.size == if leaf.outcome.Decoded? then |leaf.outcome.bytes| else 0
    decreases |leaves|
  {
    if leaves != [] {
      ParsedAreTheLeaves(leaves[..|leaves| - 1], start);
    }
  }

  ghost predicate IsChosen(selected: Option<set<nat>>, index: nat) {
    selected.None? || index in selected.value
  }

  ghost predicate IsExtractedFrom(x: Extracted, leaf: Part, index: nat) {
    && leaf.outcome.Decoded? && x.partIndex == index && IsNamed(x.filename, leaf) && x.contentType == leaf.mimetype
    && x.contentId == leaf.contentId && x.bytes == leaf.outcome.bytes
  }

  ghost predicate IsFailureOf(x: Failure, leaf: Part, index: nat) {
    leaf.outcome.Undecodable? && x.partIndex == index && IsNamed(x.filename, leaf) && x.contentType == leaf.mimetype
  }

  ghost predicate IsFound(leaves: seq<Part>, start: nat, selected: Option<set<nat>>, x: Extracted, k: nat) {
    k < |leaves| && IsChosen(selected, start + k) && IsExtractedFrom(x, leaves[k], start + k)
  }

  ghost predicate HasFailed(leaves: seq<Part>, start: nat, selected: Option<set<nat>>, x: Failure, k: nat) {
    k < |leaves| && IsChosen(selected, start + k) && IsFailureOf(x, leaves[k], start + k)
  }

  lemma FoundGrows(leaves: seq<Part>, start: nat, selected: Option<set<nat>>, x: Extracted)
    requires leaves != []
    ensures var n := |leaves| - 1;
      (exists k: nat :: IsFound(leaves, start, selected, x, k)) <==>
        (exists k: nat :: IsFound(leaves[..n], start, selected, x, k)) || IsFound(leaves, start, selected, x, n)
  {
    hide IsChosen, IsExtractedFrom;
    var init := leaves[..|leaves| - 1];
    forall k: nat | k < |leaves| - 1
      ensures IsFound(leaves, start, selected, x, k) <==> IsFound(init, start, selected, x, k)
    {
    }
  }

  lemma FailedGrows(leaves: seq<Part>, start: nat, selected: Option<set<nat>>, x: Failure)
    requires leaves != []
    ensures var n := |leaves| - 1;
      (exists k: nat :: HasFailed(leaves, start, selected, x, k)) <==>
        (exists k: nat :: HasFailed(leaves[..n], start, selected, x, k)) || HasFailed(leaves, start, selected, x, n)
  {
    hide IsChosen, IsFailureOf;
    var init := leaves[..|leaves| - 1];
    forall k: nat | k < |leaves| - 1
      ensures HasFailed(leaves, start, selected, x, k) <==> HasFailed(init, start, selected, x, k)
    {
    }
  }

  /** An extraction reports exactly the chosen leaves that decode, with their bytes. */
  lemma {:induction false} ExtractedAreTheLeaves(leaves: seq<Part>, start: nat, selected: Option<set<nat>>,
                                                 x: Extracted)
    ensures x in ExtractedOf(leaves, start, selected) <==> exists k: nat :: IsFound(leaves, start, selected, x, k)
    decreases |leaves|
  {
    if leaves != [] {
      ExtractedAreTheLeaves(leaves[..|leaves| - 1], start, selected, x);
      FoundGrows(leaves, start, selected, x);
    }
  }

  /** And exactly the chosen ones that do not, as failures. */
  lemma {:induction false} FailuresAreTheLeaves(leaves: seq<Part>, start: nat, selected: Option<set<nat>>, x: Failure)
    ensures x in FailuresOf(leaves, start, selected) <==> exists k: nat :: HasFailed(leaves, start, selected, x, k)
    decreases |leaves|
  {
    if leaves != [] {
      FailuresAreTheLeaves(leaves[..|leaves| - 1], start, selected, x);
      FailedGrows(leaves, start, selected, x);
    }
  }

  ghost predicate IsSameAttachment(parsed: Attachment, extracted: Extracted) {
    && parsed.decoded && parsed.partIndex == extracted.partIndex && parsed.filename == extracted.filename
    && parsed.contentType == extracted.contentType && parsed.contentId == extracted.contentId
    && parsed.size == |extracted.bytes|
  }

  ghost predicate IsSameFailure(parsed: Attachment, failure: Failure) {
    && !parsed.decoded && parsed.partIndex == failure.partIndex
    && parsed.filename == failure.filename && parsed.contentType == failure.contentType
  }

  /** Of the attachments a parse listed, extraction reports each once: with its
      bytes if it decoded, as a failure if not, under the same index, name and type. */
  ghost predicate Matches(parsed: seq<Attachment>, extracted: seq<Extracted>, failures: seq<Failure>) {
    if parsed == [] then extracted == [] && failures == []
    else
      var init, last := parsed[..|parsed| - 1], parsed[|parsed| - 1];
      if last.decoded then
        extracted != [] && IsSameAttachment(last, extracted[|extracted| - 1])
        && Matches(init, extracted[..|extracted| - 1], failures)
      else
        failures != [] && IsSameFailure(last, failures[|failures| - 1])
        && Matches(init, extracted, failures[..|failures| - 1])
  }

  lemma {:induction false} ExtractionMatchesParse(leaves: seq<Part>, start: nat)
    ensures Matches(Numbered(leaves, start), ExtractedOf(leaves, start, None), FailuresOf(leaves, start, None))
    decreases |leaves|
  {
    if leaves != [] {
      var init := leaves[..|leaves| - 1];
      ExtractionMatchesParse(init, start);
      var parsed := Numbered(leaves, start);
      assert parsed[..|parsed| - 1] == Numbered(init, start);
      var extracted := ExtractedOf(leaves, start, None);
      var failures := FailuresOf(leaves, start, None);
      if leaves[|leaves| - 1].outcome.Decoded? {
        assert extracted[..|extracted| - 1] == ExtractedOf(init, start, None);
        assert failures == FailuresOf(init, start, None);
      } else {
        assert failures[..|failures| - 1] == FailuresOf(init, start, None);
        assert extracted == ExtractedOf(init, start, None);
      }
    }
  }

  // ---- A selection is a filter of the full report

  ghost function Picked(extracted: seq<Extracted>, selected: set<nat>): seq<Extracted> {
    if extracted == [] then []
    else Picked(extracted[..|extracted| - 1], selected)
         + if extracted[|extracted| - 1].partIndex in selected then [extracted[|extracted| - 1]] else []
  }

  ghost function PickedFailures(failures: seq<Failure>, selected: set<nat>): seq<Failure> {
    if failures == [] then []
    else PickedFailures(failures[..|failures| - 1], selected)
         + if failures[|failures| - 1].partIndex in selected then [failures[|failures| - 1]] else []
  }

  lemma PickedOneMore(extracted: seq<Extracted>, last: Extracted, selected: set<nat>)
    ensures Picked(extracted + [last], selected) ==
            Picked(extracted, selected) + if last.partIndex in selected then [last] else []
  {
    assert (extracted + [last])[..|extracted|] == extracted;
  }

  lemma PickedOneMoreFailure(failures: seq<Failure>, last: Failure, selected: set<nat>)
    ensures PickedFailures(failures + [last], selected) ==
            PickedFailures(failures, selected) + if last.partIndex in selected then [last] else []
  {
    assert (failures + [last])[..|failures|] == failures;
  }

  lemma {:induction false} SelectionIsFilter(leaves: seq<Part>, start: nat, selected: set<nat>)
    ensures ExtractedOf(leaves, start, Some(selected)) == Picked(ExtractedOf(leaves, start, None), selected)
    ensures FailuresOf(leaves, start, Some(selected)) == PickedFailures(FailuresOf(leaves, start, None), selected)
    decreases |leaves|
  {
    hide FilenameOf, Picked, PickedFailures;
    if leaves == [] {
      NothingPicked(selected);
    } else {
      var init := leaves[..|leaves| - 1];
      var leaf := leaves[|leaves| - 1];
      var index := start + |leaves| - 1;
      SelectionIsFilter(init, start, selected);
      if leaf.outcome.Decoded? {
        var last := Extracted(index, FilenameOf(leaf), leaf.mimetype, leaf.contentId, leaf.outcome.bytes);
        PickedOneMore(ExtractedOf(init, start, None), last, selected);
        assert FailuresOf(leaves, start, None) == FailuresOf(init, start, None);
        assert FailuresOf(leaves, start, Some(selected)) == FailuresOf(init, start, Some(selected));
      } else {
        var last := Failure(index, FilenameOf(leaf), leaf.mimetype);
        PickedOneMoreFailure(FailuresOf(init, start, None), last, selected);
        assert ExtractedOf(leaves, start, None) == ExtractedOf(init, start, None);
        assert ExtractedOf(leaves, start, Some(selected)) == ExtractedOf(init, start, Some(selected));
      }
    }
  }

  lemma NothingPicked(selected: set<nat>)
    ensures Picked([], selected) == [] && PickedFailures([], selected) == []
  {
  }

  // ---- Parsing affords what extraction affords

  /** Charges that are all among others, in number and size. */
  ghost predicate CostsAtMost(a: seq<Charge>, b: seq<Charge>) {
    && TotalSize(a) <= TotalSize(b)
    && forall k | 0 <= k < |a| :: a[k] in b
  }

  lemma CostsAtMostConcat(a: seq<Charge>, b: seq<Charge>, c: seq<Charge>, d: seq<Charge>)
    requires CostsAtMost(a, c) && CostsAtMost(b, d)
    ensures CostsAtMost(a + b, c + d)
  {
    TotalSizeConcat(a, b);
    TotalSizeConcat(c, d);
    forall k | 0 <= k < |a + b|
      ensures (a + b)[k] in c + d
    {
      if k < |a| {
        assert a[k] in c;
      } else {
        assert b[k - |a|] in d;
      }
    }
  }

  lemma CheaperIsAffordable(a: seq<Charge>, b: seq<Charge>, limits: DecodeLimits, used: nat)
    requires CostsAtMost(a, b) && Affordable(b, limits, used)
    ensures Affordable(a, limits, used)
  {
    hide TotalSize;
  }

  lemma {:induction false} SelectionCostsLess(leaves: seq<Part>, start: nat, selected: Option<set<nat>>)
    ensures CostsAtMost(ChargesOf(leaves, start, selected), ChargesOf(leaves, start, None))
    decreases |leaves|
  {
    hide AttachmentCharge;
    if leaves != [] {
      var init := leaves[..|leaves| - 1];
      var last := [AttachmentCharge(leaves[|leaves| - 1])];
      SelectionCostsLess(init, start, selected);
      var picked := if IsSelected(selected, start + |leaves| - 1) then last else [];
      CostsAtMostConcat(ChargesOf(init, start, selected), picked, ChargesOf(init, start, None), last);
    }
  }

  lemma {:induction false} ExtractionCostsLess(part: Part, named: bool, start: nat)
    ensures CostsAtMost(ChargesOf(Leaves(part, named), start, None), ParseCharges(part, named))
    decreases part, 1
  {
    hide AttachmentCharge, NamedBodyAllowedForChild, IsAttachmentLike, CostsAtMost, ChargesOf;
    if part.children == [] {
      LeafCostsLess(part, named, start);
    } else {
      FirstCostLess(part, named, |part.children|, start);
    }
  }

  lemma LeafCostsLess(part: Part, named: bool, start: nat)
    requires part.children == []
    ensures CostsAtMost(ChargesOf(Leaves(part, named), start, None), ParseCharges(part, named))
  {
    if IsAttachmentLike(part, named) {
      ReportOfOne(part, start, None);
    } else {
      assert Leaves(part, named) == [];
      assert ChargesOf([], start, None) == [];
    }
  }

  lemma {:induction false} FirstCostLess(part: Part, named: bool, n: nat, start: nat)
    requires n <= |part.children|
    ensures CostsAtMost(ChargesOf(LeavesOfFirst(part, named, n), start, None), ParseChargesOfFirst(part, named, n))
    decreases part, 0, n
  {
    hide AttachmentCharge, NamedBodyAllowedForChild, Leaves, ParseCharges;
    if n > 0 {
      var child := part.children[n - 1];
      var childNamed := NamedBodyAllowedForChild(part, named, n - 1);
      var leaves := LeavesOfFirst(part, named, n - 1);
      FirstCostLess(part, named, n - 1, start);
      ExtractionCostsLess(child, childNamed, start + |leaves|);
      ReportConcat(leaves, Leaves(child, childNamed), start, None);
      CostsAtMostConcat(ChargesOf(leaves, start, None), ChargesOf(Leaves(child, childNamed), start + |leaves|, None),
                        ParseChargesOfFirst(part, named, n - 1), ParseCharges(child, childNamed));
    }
  }

  /** A message that parses within its limits extracts within them, whole or in
      part; and whatever extracts whole extracts in part. */
  lemma ParsedMessagesExtract(part: Part, named: bool, limits: DecodeLimits, used: nat, selected: Option<set<nat>>)
    ensures Affordable(ParseCharges(part, named), limits, used) ==>
            LeavesAreAffordable(Leaves(part, named), 0, None, limits, used)
    ensures LeavesAreAffordable(Leaves(part, named), 0, None, limits, used) ==>
            LeavesAreAffordable(Leaves(part, named), 0, selected, limits, used)
  {
    hide CostsAtMost, Leaves, ParseCharges, ChargesOf, Affordable;
    var leaves := Leaves(part, named);
    ExtractionCostsLess(part, named, 0);
    SelectionCostsLess(leaves, 0, selected);
    if Affordable(ParseCharges(part, named), limits, used) {
      CheaperIsAffordable(ChargesOf(leaves, 0, None), ParseCharges(part, named), limits, used);
    }
    if LeavesAreAffordable(leaves, 0, None, limits, used) {
      CheaperIsAffordable(ChargesOf(leaves, 0, selected), ChargesOf(leaves, 0, None), limits, used);
    }
  }
}
