// The bounded reader of a message header (crates/notm-mail/src/message_io.rs):
// it reads in chunks until the header ends or a limit is reached, and what it
// returns must not depend on where the chunks happen to be cut.
module HeaderReader {
  import opened MailText

  const CR: Byte := 13
  const LF: Byte := 10
  const CHUNK_SIZE: nat := 8 * 1024

  // ---- The end of a header

  predicate IsCrlfEnd(bytes: seq<Byte>, i: nat) {
    i + 4 <= |bytes| && bytes[i] == CR && bytes[i + 1] == LF && bytes[i + 2] == CR && bytes[i + 3] == LF
  }

  predicate IsLfEnd(bytes: seq<Byte>, i: nat) {
    i + 2 <= |bytes| && bytes[i] == LF && bytes[i + 1] == LF
  }

  function FirstCrlfEnd(bytes: seq<Byte>, from: nat): (i: Option<nat>)
    requires from <= |bytes|
    ensures i.Some? ==>
      from <= i.value && IsCrlfEnd(bytes, i.value) && forall k | from <= k < i.value :: !IsCrlfEnd(bytes, k)
    ensures i.None? ==> forall k: nat | from <= k :: !IsCrlfEnd(bytes, k)
    decreases |bytes| - from
  {
    if from == |bytes| then None else if IsCrlfEnd(bytes, from) then Some(from) else FirstCrlfEnd(bytes, from + 1)
  }

  function FirstLfEnd(bytes: seq<Byte>, from: nat): (i: Option<nat>)
    requires from <= |bytes|
    ensures i.Some? ==>
      from <= i.value && IsLfEnd(bytes, i.value) && forall k | from <= k < i.value :: !IsLfEnd(bytes, k)
    ensures i.None? ==> forall k: nat | from <= k :: !IsLfEnd(bytes, k)
    decreases |bytes| - from
  {
    if from == |bytes| then None else if IsLfEnd(bytes, from) then Some(from) else FirstLfEnd(bytes, from + 1)
  }

  function HeaderEnd(bytes: seq<Byte>): (end: Option<nat>)
    ensures end.Some? ==> end.value < |bytes|
  {
    var crlf, lf := FirstCrlfEnd(bytes, 0), FirstLfEnd(bytes, 0);
    if crlf.Some? && lf.Some? then (if crlf.value < lf.value then crlf else lf)
    else if crlf.Some? then crlf
    else lf
  }

  /** The end found is the first blank line of either kind. */
  lemma EndIsFirst(bytes: seq<Byte>, end: nat)
    ensures HeaderEnd(bytes) == Some(end) <==>
      && (IsCrlfEnd(bytes, end) || IsLfEnd(bytes, end))
      && forall k: nat | k < end :: !IsCrlfEnd(bytes, k) && !IsLfEnd(bytes, k)
    ensures HeaderEnd(bytes).None? <==> forall k: nat :: !IsCrlfEnd(bytes, k) && !IsLfEnd(bytes, k)
  {
  }

  /** Bytes that arrive later do not change the end: a blank line that starts
      earlier is also complete earlier, although the two kinds differ in length. */
  lemma EndIsStable(bytes: seq<Byte>, more: seq<Byte>)
    ensures HeaderEnd(bytes).Some? ==> HeaderEnd(bytes + more) == HeaderEnd(bytes)
  {
    if HeaderEnd(bytes).Some? {
      var end, all := HeaderEnd(bytes).value, bytes + more;
      EndIsFirst(bytes, end);
      EndIsFirst(all, end);
      hide HeaderEnd;
      assert forall i | 0 <= i < |bytes| :: all[i] == bytes[i];
      forall k: nat | k < end
        ensures !IsCrlfEnd(all, k) && !IsLfEnd(all, k)
      {
        assert !IsCrlfEnd(bytes, k) && !IsLfEnd(bytes, k);
      }
    }
  }

  // ---- Reading

  /** How the next read goes: interrupted, or returning about so many bytes. */
  datatype Turn = Interrupted | Returns(count: nat)

  datatype Reading = Bytes(bytes: seq<Byte>) | Again | Failed

  /** The retained bytes and whether the limit cut them short. */
  datatype Header = Header(bytes: seq<Byte>, truncated: bool) | ReadError

  /** What the reader should give for a stream that fails at some position, or not
      at all: up to the end of the header, or to the limit, or all there is. */
  function HeaderOf(stream: seq<Byte>, failsAt: Option<nat>, limit: nat): Header
    requires failsAt.Some? ==> failsAt.value <= |stream|
  {
    var readable := if failsAt.Some? then stream[..failsAt.value] else stream;
    var retained := readable[..Min(limit, |readable|)];
    if HeaderEnd(retained).Some? then Header(retained[..HeaderEnd(retained).value], false)
    else if limit < |readable| then Header(retained, true)
    else if failsAt.Some? then ReadError
    else Header(retained, false)
  }

  /** A blank line of either kind that starts at k and is complete before the end. */
  predicate IsBlankLine(stream: seq<Byte>, k: nat, end: nat)
    requires end <= |stream|
  {
    || (k + 4 <= end && stream[k..k + 4] == [CR, LF, CR, LF])
    || (k + 2 <= end && stream[k..k + 2] == [LF, LF])
  }

  lemma BlankLineIs(stream: seq<Byte>, k: nat, end: nat)
    requires end <= |stream|
    ensures IsBlankLine(stream, k, end) <==> IsCrlfEnd(stream[..end], k) || IsLfEnd(stream[..end], k)
  {
    if k + 2 <= end {
      assert stream[k..k + 2] == [stream[k], stream[k + 1]];
    }
    if k + 4 <= end {
      assert stream[k..k + 4] == [stream[k], stream[k + 1], stream[k + 2], stream[k + 3]];
    }
  }

  /** What is returned and when it is marked truncated: up to the first blank line
      complete within the limit and the readable bytes; failing that the limit cuts
      off what goes beyond it; failing that a failing stream is an error and any
      other returned whole. */
  lemma HeaderIsExact(stream: seq<Byte>, failsAt: Option<nat>, limit: nat, bytes: seq<Byte>, truncated: bool)
    requires failsAt.Some? ==> failsAt.value <= |stream|
    ensures var n := if failsAt.Some? then failsAt.value else |stream|;
      var m := if limit < n then limit else n;
      HeaderOf(stream, failsAt, limit) == Header(bytes, truncated) <==>
      if exists k: nat :: IsBlankLine(stream, k, m) then
        && !truncated && |bytes| < m && bytes == stream[..|bytes|] && IsBlankLine(stream, |bytes|, m)
        && forall k: nat | k < |bytes| :: !IsBlankLine(stream, k, m)
      else if limit < n then truncated && bytes == stream[..limit]
      else failsAt.None? && !truncated && bytes == stream
  {
    var n := if failsAt.Some? then failsAt.value else |stream|;
    var m := if limit < n then limit else n;
    var retained := stream[..m];
    forall k: nat
      ensures IsBlankLine(stream, k, m) <==> IsCrlfEnd(retained, k) || IsLfEnd(retained, k)
    {
      BlankLineIs(stream, k, m);
    }
    var end := HeaderEnd(retained);
    EndIsFirst(retained, if end.Some? then end.value else 0);
    hide IsBlankLine, IsCrlfEnd, IsLfEnd, HeaderEnd;
    assert stream[..n][..m] == retained;
    if end.Some? {
      assert IsBlankLine(stream, end.value, m);
      assert retained[..end.value] == stream[..end.value];
      if IsBlankLine(stream, |bytes|, m) && forall k: nat | k < |bytes| :: !IsBlankLine(stream, k, m) {
        assert |bytes| == end.value;
      }
    }
  }

  class Stream {
    const stream: seq<Byte>
    const failsAt: Option<nat>
    var position: nat
    /** The turns of the reads to come; after them a read returns all it can. */
    var turns: seq<Turn>

    ghost predicate Valid()
      reads this
    {
      (failsAt.Some? ==> failsAt.value <= |stream|) && position <= Readable()
    }

    function Readable(): nat {
      if failsAt.Some? then failsAt.value else |stream|
    }

    constructor (stream: seq<Byte>, failsAt: Option<nat>, turns: seq<Turn>)
      requires failsAt.Some? ==> failsAt.value <= |stream|
      ensures Valid() && this.stream == stream && this.failsAt == failsAt && position == 0 && this.turns == turns
    {
      this.stream, this.failsAt, this.position, this.turns := stream, failsAt, 0, turns;
    }

    /** Some of the bytes that are left, none only at the end. */
    method Read(size: nat) returns (reading: Reading)
      requires Valid() && size > 0
      modifies this`position, this`turns
      ensures Valid()
      ensures reading.Again? ==> position == old(position) && |turns| < |old(turns)|
      ensures reading.Failed? ==> failsAt == Some(position) && position == old(position)
      ensures reading.Bytes? ==>
        && position == old(position) + |reading.bytes| && |reading.bytes| <= size
        && reading.bytes == stream[old(position)..position]
        && (reading.bytes == [] ==> failsAt.None? && position == |stream|)
      ensures |turns| <= |old(turns)|
    {
      var turn := if turns == [] then Returns(size) else turns[0];
      turns := if turns == [] then [] else turns[1..];
      if turn.Interrupted? {
        return Again;
      }
      var left := Readable() - position;
      if left == 0 && failsAt.Some? {
        return Failed;
      }
      var count := Min(Min(size, left), if turn.count == 0 then 1 else turn.count);
      reading := Bytes(stream[position..position + count]);
      position := position + count;
    }

    /** Whatever the sizes and interruptions of the reads, the header is the same. */
    method ReadHeaderText(limit: nat) returns (header: Header)
      requires Valid() && position == 0
      modifies this`position, this`turns
      ensures header == HeaderOf(stream, failsAt, limit)
    {
      hide HeaderEnd;
      var retained: seq<Byte> := [];
      NothingEnds();
      while true
        invariant Valid() && position <= limit && retained == stream[..position] && HeaderEnd(retained).None?
        decreases |stream| - position, |turns|
      {
        var reading := Read(CHUNK_SIZE);
        match reading {
          case Again => continue;
          case Failed =>
            assert stream[..position][..position] == retained;
            return ReadError;
          case Bytes(chunk) =>
            if chunk == [] {
              assert stream[..Min(limit, |stream|)] == retained;
              return Header(retained, false);
            }
            var keep := Min(limit - |retained|, |chunk|);
            retained := retained + chunk[..keep];
            assert retained == stream[..Min(limit, position)];
            PrefixEnds(stream, Min(limit, position), Min(limit, Readable()));
            assert stream[..Readable()][..Min(limit, Readable())] == stream[..Min(limit, Readable())];
            if HeaderEnd(retained).Some? {
              return Header(retained[..HeaderEnd(retained).value], false);
            }
            if keep < |chunk| {
              return Header(retained, true);
            }
            if |retained| == limit {
              var hasMore := HasMore();
              return if hasMore.None? then ReadError else Header(retained, hasMore.value);
            }
        }
      }
    }

    /** Whether a byte is left after the limit, unless finding out fails. */
    method HasMore() returns (more: Option<bool>)
      requires Valid()
      modifies this`position, this`turns
      ensures more == if old(position) < Readable() then Some(true) else if failsAt.Some? then None else Some(false)
    {
      while true
        invariant Valid() && position == old(position)
        decreases |turns|
      {
        var reading := Read(1);
        match reading {
          case Again => continue;
          case Failed => return None;
          case Bytes(bytes) => return Some(bytes != []);
        }
      }
    }
  }

  lemma NothingEnds()
    ensures HeaderEnd([]).None?
  {
  }

  lemma PrefixEnds(stream: seq<Byte>, k: nat, n: nat)
    requires k <= n <= |stream|
    ensures HeaderEnd(stream[..k]).Some? ==>
      && HeaderEnd(stream[..n]) == HeaderEnd(stream[..k])
      && stream[..k][..HeaderEnd(stream[..k]).value] == stream[..n][..HeaderEnd(stream[..k]).value]
  {
    assert stream[..n] == stream[..k] + stream[k..n];
    EndIsStable(stream[..k], stream[k..n]);
  }
}
