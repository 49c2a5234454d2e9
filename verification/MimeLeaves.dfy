// Which leaves of a message are attachments, in which order they are numbered and
// what decoding them costs, in terms of the fields of its parts
// (crates/notm-mail/src/mime.rs).
module MimeLeaves {
  import opened MailText
  import opened MimeTree
  import opened CidScopes
  import opened HtmlBodies

  /** A name makes a child no attachment if it is an alternative, or the root of a
      container that is not encrypted and whose own name would not. */
  ghost predicate MayBeNamed(part: Part, named: bool, c: nat) {
    || part.mimetype == "multipart/alternative"
    || (named && part.mimetype != "multipart/encrypted"
        && if part.mimetype == "multipart/related" then IsRoot(part, c) else c == 0)
  }

  lemma NamesAre(part: Part, named: bool, c: nat)
    requires c < |part.children|
    ensures NamedBodyAllowedForChild(part, named, c) == MayBeNamed(part, named, c)
  {
    RootIs(part, c);
    hide IsRoot, RelatedRoot;
  }

  /** A leaf is an attachment unless it is text in place, calendars apart, or
      belongs to cryptography. */
  predicate IsAttached(part: Part, named: bool) {
    || !IsInline(part, named) || part.mimetype == "text/calendar"
    || (!part.cryptoRelated && !("text/" <= part.mimetype))
  }

  lemma AttachedIs(part: Part, named: bool)
    ensures IsAttachmentLike(part, named) <==> IsAttached(part, named)
  {
    TextPrefix(part.mimetype);
  }

  lemma TextPrefix(mimetype: string)
    ensures mimetype == "text/html" || mimetype == "text/calendar" ==> "text/" <= mimetype
    ensures "multipart/" <= mimetype ==> !("text/" <= mimetype)
  {
    assert "text/"[0] == 't' && "multipart/"[0] == 'm';
    assert "text/html"[..5] == "text/" && "text/calendar"[..5] == "text/";
  }

  lemma LeafIsNumbered(part: Part, named: bool)
    requires part.children == []
    ensures Leaves(part, named) == if IsAttached(part, named) then [part] else []
  {
    AttachedIs(part, named);
    hide IsAttachmentLike, IsAttached;
  }

  lemma {:induction false} LeavesOfFirstStand(part: Part, named: bool, n: nat, c: nat)
    requires c < n <= |part.children|
    ensures var from, to := |LeavesOfFirst(part, named, c)|, |LeavesOfFirst(part, named, c + 1)|;
      var leaves := LeavesOfFirst(part, named, n);
      && from <= to <= |leaves|
      && leaves[from..to] == Leaves(part.children[c], NamedBodyAllowedForChild(part, named, c))
    decreases n
  {
    hide Leaves, NamedBodyAllowedForChild;
    if c < n - 1 {
      LeavesOfFirstStand(part, named, n - 1, c);
    }
  }

  /** A container numbers the attachments of its children in their order, and no others. */
  lemma ChildrenAreNumbered(part: Part, named: bool, start: nat, c: nat)
    requires c < |part.children|
    ensures var from, to := ChildStart(part, named, 0, c), ChildStart(part, named, 0, c + 1);
      && from <= to <= |Leaves(part, named)|
      && Leaves(part, named)[from..to] == Leaves(part.children[c], MayBeNamed(part, named, c))
    ensures ChildStart(part, named, 0, 0) == 0
    ensures ChildStart(part, named, 0, |part.children|) == |Leaves(part, named)|
    ensures ChildStart(part, named, start, c) == start + ChildStart(part, named, 0, c)
  {
    LeavesOfFirstStand(part, named, |part.children|, c);
    NamesAre(part, named, c);
    hide MayBeNamed, NamedBodyAllowedForChild;
  }

  // ---- Costs

  /** What parsing decodes at a leaf: an attachment whole, and any other text that
      has a valid transfer encoding; of cryptography nothing. */
  lemma LeafCosts(part: Part, named: bool)
    requires part.children == []
    ensures TotalSize(ParseCharges(part, named)) ==
      if IsAttached(part, named) then if part.outcome.Decoded? then |part.outcome.bytes| else 0
      else if part.body.Text? && !part.cryptoRelated then ByteLength(part.body.text) else 0
    ensures |ParseCharges(part, named)| ==
      if IsAttached(part, named) || (!part.cryptoRelated && !part.body.BadEncoding?) then 1 else 0
    ensures forall charge | charge in ParseCharges(part, named) :: charge.bound == part.upperBound
  {
    AttachedIs(part, named);
    hide IsAttachmentLike, IsAttached, ByteLength;
    var charges := ParseCharges(part, named);
    if charges != [] {
      assert charges == [charges[0]];
      AffordableOne(charges[0], DecodeLimits(0, 0), 0);
    }
  }

  lemma {:induction false} CostsOfFirst(part: Part, named: bool, n: nat)
    requires n < |part.children|
    ensures TotalSize(ParseChargesOfFirst(part, named, n + 1)) ==
      TotalSize(ParseChargesOfFirst(part, named, n))
      + TotalSize(ParseCharges(part.children[n], MayBeNamed(part, named, n)))
  {
    NamesAre(part, named, n);
    TotalSizeConcat(ParseChargesOfFirst(part, named, n),
                    ParseCharges(part.children[n], NamedBodyAllowedForChild(part, named, n)));
    hide MayBeNamed, NamedBodyAllowedForChild, TotalSize, ParseCharges;
  }

  function Sum(costs: seq<nat>): nat {
    if costs == [] then 0 else costs[0] + Sum(costs[1..])
  }

  lemma {:induction false} SumGrows(costs: seq<nat>, cost: nat)
    ensures Sum(costs + [cost]) == Sum(costs) + cost
    decreases |costs|
  {
    if costs == [] {
      assert costs + [cost] == [cost];
    } else {
      assert (costs + [cost])[1..] == costs[1..] + [cost];
      SumGrows(costs[1..], cost);
    }
  }

  ghost function CostsOf(part: Part, named: bool, n: nat): seq<nat>
    requires n <= |part.children|
  {
    seq(n, c requires 0 <= c < n => TotalSize(ParseCharges(part.children[c], MayBeNamed(part, named, c))))
  }

  lemma {:induction false} FirstCost(part: Part, named: bool, n: nat)
    requires n <= |part.children|
    ensures TotalSize(ParseChargesOfFirst(part, named, n)) == Sum(CostsOf(part, named, n))
    decreases n
  {
    hide TotalSize, ParseCharges, MayBeNamed, Sum;
    if n == 0 {
      NothingCosts(part, named);
    } else {
      FirstCost(part, named, n - 1);
      CostsOfFirst(part, named, n - 1);
      var cost := TotalSize(ParseCharges(part.children[n - 1], MayBeNamed(part, named, n - 1)));
      SumGrows(CostsOf(part, named, n - 1), cost);
      assert CostsOf(part, named, n) == CostsOf(part, named, n - 1) + [cost];
    }
  }

  lemma NothingCosts(part: Part, named: bool)
    ensures TotalSize(ParseChargesOfFirst(part, named, 0)) == Sum(CostsOf(part, named, 0)) == 0
  {
  }

  /** A container costs what its children cost together. */
  lemma ContainerCosts(part: Part, named: bool)
    requires part.children != []
    ensures TotalSize(ParseCharges(part, named)) == Sum(CostsOf(part, named, |part.children|))
  {
    FirstCost(part, named, |part.children|);
    hide TotalSize, CostsOf, Sum;
  }
}
