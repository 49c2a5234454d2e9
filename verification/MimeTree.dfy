// A parsed MIME message as a tree, with what its parser and decoders report,
// and the attachments it holds in the order they are numbered.
module MimeTree {
  import opened MailText

  datatype Kind = Alternative | Related | Signed | Encrypted | Html | Calendar | OtherText | OtherKind

  function KindOf(mimetype: string): Kind {
    if mimetype == "multipart/alternative" then Alternative
    else if mimetype == "multipart/related" then Related
    else if mimetype == "multipart/signed" then Signed
    else if mimetype == "multipart/encrypted" then Encrypted
    else if mimetype == "text/html" then Html
    else if mimetype == "text/calendar" then Calendar
    else if "text/" <= mimetype then OtherText
    else OtherKind
  }

  /** What decoding a leaf as an attachment yields. */
  datatype Outcome = Decoded(bytes: string) | Undecodable

  /** What reading a leaf as body text yields: its transfer encoding is rejected
      first, or its text cannot be had, or it can. */
  datatype Body = BadEncoding | BadText | Text(text: string)

  /** A node, its media type lower-cased, its content identifiers without brackets. */
  datatype Part = Part(
    mimetype: string,
    filename: Option<string>,
    fallbackName: string,
    disposedAsAttachment: bool,
    cryptoRelated: bool,
    contentId: Option<string>,
    start: Option<string>,
    upperBound: nat,
    outcome: Outcome,
    body: Body,
    children: seq<Part>)

  function FirstWithId(children: seq<Part>, id: string, from: nat): (r: nat)
    requires from <= |children|
    ensures children != [] ==> r < |children|
    decreases |children| - from
  {
    if from == |children| then 0
    else if children[from].contentId == Some(id) then from
    else FirstWithId(children, id, from + 1)
  }

  /** The root of a related container: the child its start parameter names, else the first. */
  function RelatedRoot(part: Part): nat {
    if part.start.None? then 0 else FirstWithId(part.children, part.start.value, 0)
  }

  function NamedBodyAllowedForChild(part: Part, namedBodyAllowed: bool, index: nat): bool {
    var kind := KindOf(part.mimetype);
    if kind.Alternative? then true
    else if !namedBodyAllowed || kind.Encrypted? then false
    else index == if kind.Related? then RelatedRoot(part) else 0
  }

  predicate IsExplicitAttachment(part: Part, namedBodyAllowed: bool) {
    part.disposedAsAttachment || (part.filename.Some? && !namedBodyAllowed)
  }

  predicate IsAttachmentLike(part: Part, namedBodyAllowed: bool) {
    var kind := KindOf(part.mimetype);
    || IsExplicitAttachment(part, namedBodyAllowed)
    || kind.Calendar?
    || (!part.cryptoRelated && !(kind.Html? || kind.Calendar? || kind.OtherText?))
  }

  function FilenameOf(part: Part): string {
    if part.filename.Some? then part.filename.value else part.fallbackName
  }

  // ---- The attachments of a tree

  /** The leaves that count as attachments, in the order of the message. */
  function Leaves(part: Part, named: bool): seq<Part>
    decreases part, 1, 0
  {
    if part.children != [] then LeavesOfFirst(part, named, |part.children|)
    else if IsAttachmentLike(part, named) then [part]
    else []
  }

  function LeavesOfFirst(part: Part, named: bool, n: nat): seq<Part>
    requires n <= |part.children|
    decreases part, 0, n
  {
    if n == 0 then []
    else LeavesOfFirst(part, named, n - 1)
         + Leaves(part.children[n - 1], NamedBodyAllowedForChild(part, named, n - 1))
  }

  // ---- What decoding a tree costs

  /** One decoding: the size foreseen and the size found. */
  datatype Charge = Charge(bound: nat, size: nat)

  datatype DecodeLimits = DecodeLimits(maxPart: nat, maxTotal: nat)

  function AttachmentCharge(part: Part): Charge {
    Charge(part.upperBound, if part.outcome.Decoded? then |part.outcome.bytes| else 0)
  }

  /** What parsing decodes at a leaf: attachments, and the text of bodies. */
  function LeafCharges(part: Part, named: bool): seq<Charge> {
    if IsAttachmentLike(part, named) then [AttachmentCharge(part)]
    else if part.cryptoRelated || part.body.BadEncoding? then []
    else [Charge(part.upperBound, if part.body.Text? then ByteLength(part.body.text) else 0)]
  }

  function ParseCharges(part: Part, named: bool): seq<Charge>
    decreases part, 1, 0
  {
    if part.children != [] then ParseChargesOfFirst(part, named, |part.children|) else LeafCharges(part, named)
  }

  function ParseChargesOfFirst(part: Part, named: bool, n: nat): seq<Charge>
    requires n <= |part.children|
    decreases part, 0, n
  {
    if n == 0 then []
    else ParseChargesOfFirst(part, named, n - 1)
         + ParseCharges(part.children[n - 1], NamedBodyAllowedForChild(part, named, n - 1))
  }

  function TotalSize(charges: seq<Charge>): nat {
    if charges == [] then 0 else TotalSize(charges[..|charges| - 1]) + charges[|charges| - 1].size
  }

  /** Every single decoding within the part limit, and all together within the rest of the total. */
  ghost predicate Affordable(charges: seq<Charge>, limits: DecodeLimits, used: nat) {
    && (forall k | 0 <= k < |charges| :: charges[k].bound <= limits.maxPart && charges[k].size <= limits.maxPart)
    && used + TotalSize(charges) <= limits.maxTotal
  }

  lemma {:induction false} TotalSizeConcat(a: seq<Charge>, b: seq<Charge>)
    ensures TotalSize(a + b) == TotalSize(a) + TotalSize(b)
    decreases |b|
  {
    if b == [] {
      assert a + b == a;
    } else {
      assert (a + b)[..|a + b| - 1] == a + b[..|b| - 1];
      TotalSizeConcat(a, b[..|b| - 1]);
    }
  }

  lemma AffordableConcat(a: seq<Charge>, b: seq<Charge>, limits: DecodeLimits, used: nat)
    ensures Affordable(a + b, limits, used) <==>
      Affordable(a, limits, used) && Affordable(b, limits, used + TotalSize(a))
  {
    hide TotalSize;
    TotalSizeConcat(a, b);
    assert forall k | 0 <= k < |a| :: (a + b)[k] == a[k];
    assert forall k | 0 <= k < |b| :: (a + b)[|a| + k] == b[k];
  }

  lemma AffordableOne(charge: Charge, limits: DecodeLimits, used: nat)
    ensures TotalSize([charge]) == charge.size
    ensures Affordable([charge], limits, used) <==>
            charge.bound <= limits.maxPart && charge.size <= limits.maxPart && used + charge.size <= limits.maxTotal
  {
    assert TotalSize([charge][..0]) == 0;
    assert [charge][0] == charge;
  }
}
