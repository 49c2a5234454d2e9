// The walk over nested parts that bounds a message's depth and part count
// before it is parsed (crates/notm-mail/src/mime.rs), and the writer whose
// output it takes apart again.
module Preflight {
  import opened MailText
  import opened Multipart

  /** What a part's headers say, as the header parser reports it: they cannot be
      read, they announce no parts, or they announce a multipart body. */
  datatype Headers = Unreadable | Single | Composite(bodyStart: nat, boundary: string)

  datatype Limits = Limits(maxDepth: nat, maxParts: nat)

  // ---- The tree of parts a text denotes

  ghost function Children(raw: string, read: string -> Headers): (parts: seq<string>)
    ensures forall k | 0 <= k < |parts| :: |parts[k]| < |raw|
  {
    var headers := read(raw);
    if !headers.Composite? || |raw| <= headers.bodyStart then [] else
    var delimiter := Delimiter(headers.boundary);
    var first := FirstDelimiter(raw, headers.bodyStart, delimiter);
    if first.None? then [] else
    SlicesAreShorter(raw, first.value + |delimiter|, delimiter);
    Slices(raw, first.value + |delimiter|, delimiter)
  }

  /** The nodes of the tree. */
  ghost function CountParts(raw: string, read: string -> Headers): nat
    decreases |raw|, 1, 0
  {
    1 + CountFirst(raw, |Children(raw, read)|, read)
  }

  /** The nodes below the first children. */
  ghost function CountFirst(raw: string, n: nat, read: string -> Headers): nat
    requires n <= |Children(raw, read)|
    decreases |raw|, 0, n
  {
    if n == 0 then 0 else CountFirst(raw, n - 1, read) + CountParts(Children(raw, read)[n - 1], read)
  }

  /** Every node's headers can be read and lies at most so many levels down. */
  ghost predicate FitsDepth(raw: string, levels: int, read: string -> Headers)
    decreases |raw|, 1, 0
  {
    levels >= 0 && !read(raw).Unreadable? && FirstFitDepth(raw, |Children(raw, read)|, levels - 1, read)
  }

  ghost predicate FirstFitDepth(raw: string, n: nat, levels: int, read: string -> Headers)
    requires n <= |Children(raw, read)|
    decreases |raw|, 0, n
  {
    n == 0 || (FirstFitDepth(raw, n - 1, levels, read) && FitsDepth(Children(raw, read)[n - 1], levels, read))
  }

  /** A message within both limits. */
  ghost predicate Accepts(raw: string, levels: int, room: int, read: string -> Headers) {
    FitsDepth(raw, levels, read) && CountParts(raw, read) <= room
  }

  lemma {:induction false} MoreChildrenAreNoBetter(raw: string, n: nat, m: nat, levels: int, read: string -> Headers)
    requires n <= m <= |Children(raw, read)|
    ensures CountFirst(raw, n, read) <= CountFirst(raw, m, read)
    ensures FirstFitDepth(raw, m, levels, read) ==> FirstFitDepth(raw, n, levels, read)
    decreases m
  {
    hide Children, CountParts, FitsDepth;
    if n < m {
      MoreChildrenAreNoBetter(raw, n, m - 1, levels, read);
    }
  }

  lemma FirstUnfolds(raw: string, n: nat, levels: int, read: string -> Headers)
    requires n < |Children(raw, read)|
    ensures CountFirst(raw, n + 1, read) == CountFirst(raw, n, read) + CountParts(Children(raw, read)[n], read)
    ensures FirstFitDepth(raw, n + 1, levels, read) <==>
            FirstFitDepth(raw, n, levels, read) && FitsDepth(Children(raw, read)[n], levels, read)
  {
    hide Children, CountParts, FitsDepth;
  }

  lemma AcceptsUnfolds(raw: string, levels: int, room: int, read: string -> Headers)
    ensures CountParts(raw, read) == 1 + CountFirst(raw, |Children(raw, read)|, read)
    ensures FitsDepth(raw, levels, read) <==>
            levels >= 0 && !read(raw).Unreadable? && FirstFitDepth(raw, |Children(raw, read)|, levels - 1, read)
  {
    hide Children, CountFirst, FirstFitDepth;
  }

  /** Which children a text has. */
  lemma ChildrenUnfold(raw: string, read: string -> Headers)
    ensures var headers := read(raw);
      Children(raw, read) ==
      if !headers.Composite? || |raw| <= headers.bodyStart then [] else
      var first := FirstDelimiter(raw, headers.bodyStart, Delimiter(headers.boundary));
      if first.None? then [] else Slices(raw, first.value + |Delimiter(headers.boundary)|, Delimiter(headers.boundary))
  {
    hide Slices, FirstDelimiter;
  }

  /** One child too deep or one too many spoils the whole. */
  lemma OneChildSpoils(raw: string, n: nat, levels: int, room: int, read: string -> Headers)
    requires n < |Children(raw, read)|
    requires !Accepts(Children(raw, read)[n], levels - 1, room - 1 - CountFirst(raw, n, read), read)
    ensures !Accepts(raw, levels, room, read)
  {
    hide Children, CountFirst, FirstFitDepth, CountParts, FitsDepth;
    AcceptsUnfolds(raw, levels, room, read);
    FirstUnfolds(raw, n, levels - 1, read);
    MoreChildrenAreNoBetter(raw, n + 1, |Children(raw, read)|, levels - 1, read);
  }

  lemma NotAccepted(raw: string, levels: int, room: int, read: string -> Headers)
    requires levels < 0 || room < 1 || read(raw).Unreadable?
    ensures !Accepts(raw, levels, room, read)
  {
  }

  lemma OneMoreChild(raw: string, n: nat, levels: int, parts: nat, max: nat, read: string -> Headers)
    requires n < |Children(raw, read)| && FirstFitDepth(raw, n, levels, read)
    requires Accepts(Children(raw, read)[n], levels, max - parts, read)
    ensures FirstFitDepth(raw, n + 1, levels, read)
    ensures CountFirst(raw, n + 1, read) == CountFirst(raw, n, read) + CountParts(Children(raw, read)[n], read)
    ensures parts + CountParts(Children(raw, read)[n], read) <= max
  {
    hide Children;
  }

  lemma AllVisited(raw: string, levels: int, counted: nat, max: nat, read: string -> Headers)
    requires levels >= 0 && !read(raw).Unreadable?
    requires FirstFitDepth(raw, |Children(raw, read)|, levels - 1, read)
    requires counted + 1 + CountFirst(raw, |Children(raw, read)|, read) <= max
    ensures Accepts(raw, levels, max - counted, read)
    ensures CountParts(raw, read) == 1 + CountFirst(raw, |Children(raw, read)|, read)
  {
  }

  lemma NothingVisited(raw: string, levels: int, read: string -> Headers)
    ensures FirstFitDepth(raw, 0, levels, read) && CountFirst(raw, 0, read) == 0
  {
  }

  // ---- The walk

  /** One turn of the slicing loop: the part found, and where the next turn resumes. */
  method NextCut(raw: string, boundaryEnd: nat, delimiter: string) returns (cut: Cut)
    requires boundaryEnd <= |raw| && delimiter != ""
    ensures cut == CutAfter(raw, boundaryEnd, delimiter)
  {
    var newline := Find(raw, boundaryEnd, '\n');
    if newline.None? {
      return NoCut;
    }
    var partStart := newline.value + 1;
    var nextBoundary := FindLinePrefix(raw, partStart, delimiter);
    if nextBoundary.None? {
      return Cut(raw[partStart..], None);
    }
    DelimiterFits(raw, partStart, delimiter);
    var partEnd := StripTrailingLineEnding(raw, partStart, nextBoundary.value);
    var next := nextBoundary.value + |delimiter|;
    var last := next + 2 > |raw| || (raw[next] == '-' && raw[next + 1] == '-');
    return Cut(raw[partStart..partEnd], if last then None else Some(next));
  }

  /** Accepts exactly the messages whose part tree is readable and within both
      limits, and counts exactly its nodes. */
  method PreflightPart(raw: string, depth: nat, limits: Limits, counted: nat, read: string -> Headers)
    returns (r: Option<nat>)
    ensures r == if Accepts(raw, limits.maxDepth - depth, limits.maxParts - counted, read)
                 then Some(counted + CountParts(raw, read)) else None
    decreases |raw|
  {
    hide *;
    ghost var levels := limits.maxDepth - depth;
    AcceptsUnfolds(raw, levels, limits.maxParts - counted, read);
    ChildrenUnfold(raw, read);
    if depth > limits.maxDepth {
      NotAccepted(raw, levels, limits.maxParts - counted, read);
      return None;
    }
    var parts := counted + 1;
    if parts > limits.maxParts {
      NotAccepted(raw, levels, limits.maxParts - counted, read);
      return None;
    }
    var headers := read(raw);
    if headers.Unreadable? {
      NotAccepted(raw, levels, limits.maxParts - counted, read);
      return None;
    }
    NothingVisited(raw, levels - 1, read);
    if headers.Single? || |raw| <= headers.bodyStart {
      AllVisited(raw, levels, counted, limits.maxParts, read);
      return Some(parts);
    }
    var delimiter := Delimiter(headers.boundary);
    var first := FindLinePrefix(raw, headers.bodyStart, delimiter);
    if first.None? {
      AllVisited(raw, levels, counted, limits.maxParts, read);
      return Some(parts);
    }
    DelimiterFits(raw, headers.bodyStart, delimiter);
    var boundaryEnd := first.value + |delimiter|;
    ghost var children := Children(raw, read);
    ghost var n := 0;
    var more := true;
    while more
      invariant boundaryEnd <= |raw|
      invariant n <= |children|
      invariant children[n..] == if more then Slices(raw, boundaryEnd, delimiter) else []
      invariant FirstFitDepth(raw, n, levels - 1, read)
      invariant parts == counted + 1 + CountFirst(raw, n, read) <= limits.maxParts
      decreases more, |raw| - boundaryEnd
    {
      SlicesUnfold(raw, boundaryEnd, delimiter);
      var cut := NextCut(raw, boundaryEnd, delimiter);
      if cut.NoCut? {
        more := false;
        break;
      }
      assert children[n] == children[n..][0] == cut.part;
      var nested := PreflightPart(cut.part, depth + 1, limits, parts, read);
      if nested.None? {
        OneChildSpoils(raw, n, levels, limits.maxParts - counted, read);
        return None;
      }
      OneMoreChild(raw, n, levels - 1, parts, limits.maxParts, read);
      parts := nested.value;
      n := n + 1;
      assert children[n..] == children[n - 1..][1..];
      if cut.resume.None? {
        more := false;
      } else {
        boundaryEnd := cut.resume.value;
      }
    }
    AllVisited(raw, levels, counted, limits.maxParts, read);
    return Some(parts);
  }

  // ---- The writer

  predicate EndsLine(s: string) {
    |s| >= 2 && s[|s| - 2] == '\r' && s[|s| - 1] == '\n'
  }

  /** A part as it is read back: without the line end that belongs to the delimiter. */
  function WithoutLineEnd(content: string): string {
    if EndsLine(content) then content[..|content| - 2] else content
  }

  function WithoutLineEnds(contents: seq<string>): seq<string> {
    if contents == [] then [] else [WithoutLineEnd(contents[0])] + WithoutLineEnds(contents[1..])
  }

  class BodyWriter {
    var out: string

    constructor ()
      ensures out == ""
    {
      out := "";
    }

    method WriteBoundary(boundary: string, closing: bool)
      modifies this
      ensures out == old(out) + Delimiter(boundary) + (if closing then "--" else "") + "\r\n"
    {
      out := out + "--";
      out := out + boundary;
      assert out == old(out) + Delimiter(boundary);
      if closing {
        out := out + "--";
      }
      out := out + "\r\n";
    }

    method EnsureCrlfTerminated()
      modifies this
      ensures out == if EndsLine(old(out)) then old(out) else old(out) + "\r\n"
    {
      if !EndsLine(out) {
        out := out + "\r\n";
      }
    }

    /** Writes parts, each after its delimiter line and ended by a line end. */
    method WriteParts(boundary: string, contents: seq<string>)
      requires forall k | 0 <= k < |contents| :: contents[k] != ""
      modifies this
      ensures out == old(out) + Joined(WithoutLineEnds(contents), Delimiter(boundary))
    {
      var delimiter := Delimiter(boundary);
      ghost var complete := out + Joined(WithoutLineEnds(contents), delimiter);
      assert contents[0..] == contents;
      for k := 0 to |contents|
        invariant out + Joined(WithoutLineEnds(contents[k..]), delimiter) == complete
      {
        ghost var before := out;
        WriteBoundary(boundary, false);
        ghost var line := out;
        out := out + contents[k];
        EnsureCrlfTerminated();
        PartIsWritten(before, line, contents, k, delimiter);
      }
      WriteBoundary(boundary, true);
      assert WithoutLineEnds(contents[|contents|..]) == [];
    }
  }

  /** One content after its delimiter line is one part of the joined body. */
  lemma PartIsWritten(before: string, line: string, contents: seq<string>, k: nat, delimiter: string)
    requires k < |contents| && contents[k] != ""
    requires line == before + delimiter + "" + "\r\n"
    ensures var content := line + contents[k];
      var ended := if EndsLine(content) then content else content + "\r\n";
      before + Joined(WithoutLineEnds(contents[k..]), delimiter) ==
      ended + Joined(WithoutLineEnds(contents[k + 1..]), delimiter)
  {
    var part := WithoutLineEnd(contents[k]);
    var rest := Joined(WithoutLineEnds(contents[k + 1..]), delimiter);
    var content := line + contents[k];
    EndOfContent(line, contents[k]);
    var ended := if EndsLine(content) then content else content + "\r\n";
    assert ended == line + part + "\r\n" by {
      if EndsLine(contents[k]) {
        assert contents[k] == part + "\r\n";
      }
    }
    var parts := WithoutLineEnds(contents[k..]);
    assert contents[k..][1..] == contents[k + 1..];
    assert parts[0] == part && parts[1..] == WithoutLineEnds(contents[k + 1..]);
    JoinedUnfolds(parts, delimiter);
    hide *;
    assert before + (delimiter + ("\r\n" + (part + ("\r\n" + rest))))
        == before + delimiter + "" + "\r\n" + part + "\r\n" + rest;
  }

  /** The line end found after a content is the content's own. */
  lemma EndOfContent(line: string, content: string)
    requires content != "" && EndsLine(line)
    ensures EndsLine(line + content) <==> EndsLine(content)
  {
  }

  lemma DelimiterIsOneLine(boundary: string)
    requires IsOneLine(boundary)
    ensures IsOneLine(Delimiter(boundary))
  {
  }

  /** What the writer joins, the walk slices back, exactly when no part holds a
      delimiter line of the boundary. */
  lemma WrittenPartsAreRead(raw: string, bodyStart: nat, boundary: string, parts: seq<string>, read: string -> Headers)
    requires parts != [] && IsOneLine(boundary)
    requires read(raw) == Composite(bodyStart, boundary) && bodyStart <= |raw|
    requires raw[bodyStart..] == Joined(parts, Delimiter(boundary))
    ensures Children(raw, read) == parts <==> NoDelimiterLines(parts, Delimiter(boundary))
  {
    hide *;
    var delimiter := Delimiter(boundary);
    DelimiterIsOneLine(boundary);
    BodyStarts(raw, bodyStart, parts, delimiter);
    SplittingUndoesJoining(raw, bodyStart, parts, delimiter);
    ChildrenUnfold(raw, read);
  }

  lemma BodyStarts(raw: string, at: nat, parts: seq<string>, delimiter: string)
    requires at <= |raw| && raw[at..] == Joined(parts, delimiter) && parts != []
    ensures at < |raw| && FirstDelimiter(raw, at, delimiter) == Some(at)
  {
    hide Joined;
    JoinedLayout(raw, at, parts, delimiter);
    assert IsDelimiterTail(raw, at + |delimiter|);
    FirstDelimiterUnique(raw, at, at, delimiter);
  }
}
