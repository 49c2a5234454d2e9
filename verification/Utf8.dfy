// UTF-8 as Rust strings hold it: the bytes of a text, and a reader that accepts
// exactly what the writer produces.
module Utf8 {
  import opened MailText

  function CharUtf8(c: char): (bytes: seq<Byte>)
    ensures |bytes| == CharBytes(c)
  {
    var n := c as int;
    if n < 0x80 then [n]
    else if n < 0x800 then [0xC0 + n / 64, 0x80 + n % 64]
    else if n < 0x10000 then [0xE0 + n / 4096, 0x80 + n / 64 % 64, 0x80 + n % 64]
    else [0xF0 + n / 262144, 0x80 + n / 4096 % 64, 0x80 + n / 64 % 64, 0x80 + n % 64]
  }

  function ToUtf8(s: string): seq<Byte> {
    if s == "" then [] else CharUtf8(s[0]) + ToUtf8(s[1..])
  }

  /** How many bytes a leading byte announces. */
  function Announced(lead: Byte): nat {
    if lead < 0x80 then 1 else if lead < 0xE0 then 2 else if lead < 0xF0 then 3 else 4
  }

  function Scalar(bytes: seq<Byte>): int
    requires bytes != [] && |bytes| == Announced(bytes[0])
  {
    var at := (i: nat) requires i < |bytes| => bytes[i] as int;
    if |bytes| == 1 then at(0)
    else if |bytes| == 2 then (at(0) - 0xC0) * 64 + (at(1) - 0x80)
    else if |bytes| == 3 then (at(0) - 0xE0) * 4096 + (at(1) - 0x80) * 64 + (at(2) - 0x80)
    else (at(0) - 0xF0) * 262144 + (at(1) - 0x80) * 4096 + (at(2) - 0x80) * 64 + (at(3) - 0x80)
  }

  predicate IsScalar(n: int) {
    0 <= n < 0xD800 || 0xE000 <= n < 0x11_0000
  }

  function FromUtf8(bytes: seq<Byte>): Option<string> {
    if bytes == [] then Some("")
    else
      var k := Announced(bytes[0]);
      if k > |bytes| || !IsScalar(Scalar(bytes[..k])) || CharUtf8(Scalar(bytes[..k]) as char) != bytes[..k] then None
      else
        var rest := FromUtf8(bytes[k..]);
        if rest.None? then None else Some([Scalar(bytes[..k]) as char] + rest.value)
  }

  lemma CharReadsBack(c: char)
    ensures var bytes := CharUtf8(c);
      |bytes| == Announced(bytes[0]) && Scalar(bytes) == c as int && IsScalar(c as int)
  {
    var n := c as int;
    if n >= 0x10000 {
      assert n / 262144 * 64 + n / 4096 % 64 == n / 4096;
      assert n / 4096 * 64 + n / 64 % 64 == n / 64;
    } else if n >= 0x800 {
      assert n / 4096 * 64 + n / 64 % 64 == n / 64;
    }
  }

  lemma {:induction false} ReadingUndoesWriting(s: string)
    ensures FromUtf8(ToUtf8(s)) == Some(s)
  {
    if s != "" {
      var head, bytes := CharUtf8(s[0]), ToUtf8(s);
      CharReadsBack(s[0]);
      ReadingUndoesWriting(s[1..]);
      assert bytes[0] == head[0];
      assert bytes[..|head|] == head && bytes[|head|..] == ToUtf8(s[1..]);
      assert [s[0]] + s[1..] == s;
      hide CharUtf8, Scalar, ToUtf8;
    }
  }

  lemma {:induction false} Utf8Concat(a: string, b: string)
    ensures ToUtf8(a + b) == ToUtf8(a) + ToUtf8(b)
  {
    if a == "" {
      assert a + b == b;
    } else {
      assert (a + b)[1..] == a[1..] + b && (a + b)[0] == a[0];
      Utf8Concat(a[1..], b);
      hide CharUtf8;
    }
  }

  lemma {:induction false} Utf8Length(s: string)
    ensures |ToUtf8(s)| == ByteLength(s)
  {
    if s != "" {
      var front, last := s[..|s| - 1], s[|s| - 1];
      assert front + [last] == s;
      Utf8Concat(front, [last]);
      Utf8Length(front);
      assert ToUtf8([last]) == CharUtf8(last) + ToUtf8([]);
      hide CharUtf8, CharBytes;
    }
  }
}
