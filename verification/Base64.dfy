// Base64 bodies (section 4 of RFC 4648, section 6.8 of RFC 2045): what the
// renderer writes, the length computed without decoding, and a decoder.
module Base64 {
  import opened MailText

  const LINE_LENGTH := 76

  // ---- The alphabet

  function Symbol(v: int): (c: char)
    requires 0 <= v < 64
    ensures Value(c) == v
  {
    if v < 26 then ('A' as int + v) as char
    else if v < 52 then ('a' as int + v - 26) as char
    else if v < 62 then ('0' as int + v - 52) as char
    else if v == 62 then '+'
    else '/'
  }

  /** The value of a symbol; negative for what is none. */
  function Value(c: char): (v: int)
    ensures -1 <= v < 64
  {
    if 'A' <= c <= 'Z' then c as int - 'A' as int
    else if 'a' <= c <= 'z' then c as int - 'a' as int + 26
    else if '0' <= c <= '9' then c as int - '0' as int + 52
    else if c == '+' then 62
    else if c == '/' then 63
    else -1
  }

  predicate IsSymbol(c: char) {
    Value(c) >= 0
  }

  predicate IsSpace(c: char) {
    c == ' ' || c == '\t' || c == '\n' || c as int == 0x0C || c == '\r'
  }

  // ---- Writing

  function Encode(bytes: seq<Byte>): string {
    if |bytes| >= 3 then
      [Symbol(bytes[0] / 4), Symbol(bytes[0] % 4 * 16 + bytes[1] / 16),
       Symbol(bytes[1] % 16 * 4 + bytes[2] / 64), Symbol(bytes[2] % 64)] + Encode(bytes[3..])
    else if |bytes| == 2 then
      [Symbol(bytes[0] / 4), Symbol(bytes[0] % 4 * 16 + bytes[1] / 16), Symbol(bytes[1] % 16 * 4), '=']
    else if |bytes| == 1 then
      [Symbol(bytes[0] / 4), Symbol(bytes[0] % 4 * 16), '=', '=']
    else []
  }

  /** Lines of at most 76 characters, each ended by CRLF. */
  function Wrapped(encoded: string): string {
    if encoded == "" then ""
    else
      var n := if |encoded| < LINE_LENGTH then |encoded| else LINE_LENGTH;
      encoded[..n] + "\r\n" + Wrapped(encoded[n..])
  }

  method RenderBase64(bytes: seq<Byte>) returns (out: string)
    ensures out == if bytes == [] then "\r\n" else Wrapped(Encode(bytes))
  {
    var encoded := Encode(bytes);
    out := "";
    var index := 0;
    while index < |encoded|
      invariant index <= |encoded|
      invariant Wrapped(encoded) == out + Wrapped(encoded[index..])
      invariant index < |encoded| || out != "" || encoded == ""
    {
      var end := if |encoded| - index < LINE_LENGTH then |encoded| else index + LINE_LENGTH;
      WrapStep(encoded, index, end, out);
      out := out + encoded[index..end];
      out := out + "\r\n";
      index := end;
    }
    if encoded == "" {
      out := out + "\r\n";
    }
  }

  lemma WrapStep(encoded: string, index: nat, end: nat, before: string)
    requires index < end <= |encoded|
    requires end == if |encoded| - index < LINE_LENGTH then |encoded| else index + LINE_LENGTH
    ensures before + Wrapped(encoded[index..]) == before + encoded[index..end] + "\r\n" + Wrapped(encoded[end..])
  {
    var rest := encoded[index..];
    assert rest[..end - index] == encoded[index..end];
    assert rest[end - index..] == encoded[end..];
  }

  // ---- The length

  /** How many padding characters a text without white space ends in, if it is
      made of symbols and nothing but padding follows the first padding. */
  function Padding(s: string, sawPadding: bool): Option<nat> {
    if s == "" then Some(0)
    else if IsSymbol(s[0]) && !sawPadding then Padding(s[1..], false)
    else if s[0] == '=' then
      var rest := Padding(s[1..], true);
      if rest.None? then None else Some(1 + rest.value)
    else None
  }

  function Data(raw: string): string {
    if raw == "" then "" else (if IsSpace(raw[0]) then "" else [raw[0]]) + Data(raw[1..])
  }

  function LengthFrom(encodedLen: nat, padding: nat): Option<nat> {
    if encodedLen % 4 != 0 || padding > 2 || padding > encodedLen then None
    else if padding == 1 && (encodedLen - padding) % 4 != 3 then None
    else if padding == 2 && (encodedLen - padding) % 4 != 2 then None
    else if encodedLen / 4 * 3 < padding then None
    else Some(encodedLen / 4 * 3 - padding)
  }

  function DecodedLength(raw: string): Option<nat> {
    var padding := Padding(Data(raw), false);
    if padding.None? then None else LengthFrom(|Data(raw)|, padding.value)
  }

  method Base64DecodedLen(raw: string) returns (r: Option<nat>)
    ensures r == DecodedLength(raw)
  {
    var encodedLen, padding := 0, 0;
    var sawPadding := false;
    assert raw[0..] == raw;
    for index := 0 to |raw|
      invariant encodedLen >= 0 && padding >= 0
      invariant |Data(raw)| == encodedLen + |Data(raw[index..])|
      invariant Padding(Data(raw), false) ==
                var rest := Padding(Data(raw[index..]), sawPadding);
                if rest.None? then None else Some(padding + rest.value)
    {
      var c := raw[index];
      ghost var rest := raw[index..];
      assert rest[1..] == raw[index + 1..];
      assert !IsSpace(c) ==> Data(rest)[1..] == Data(raw[index + 1..]);
      assert IsSpace(c) ==> Data(rest) == Data(raw[index + 1..]);
      if !IsSpace(c) {
        encodedLen := encodedLen + 1;
        if IsSymbol(c) && !sawPadding {
        } else if c == '=' {
          sawPadding := true;
          padding := padding + 1;
        } else {
          return None;
        }
      }
    }
    if encodedLen % 4 != 0 || padding > 2 {
      return None;
    }
    if padding > encodedLen {
      return None;
    }
    var dataLen := encodedLen - padding;
    if (padding == 1 && dataLen % 4 != 3) || (padding == 2 && dataLen % 4 != 2) {
      return None;
    }
    if encodedLen / 4 * 3 < padding {
      return None;
    }
    return Some(encodedLen / 4 * 3 - padding);
  }

  // ---- The decoder

  /** Four symbols at a time; padding only in the last four. */
  function Decode(s: string): Option<seq<Byte>> {
    if s == "" then Some([])
    else if |s| < 4 || !IsSymbol(s[0]) || !IsSymbol(s[1]) then None
    else
      var first := Value(s[0]) * 4 + Value(s[1]) / 16;
      if s[2] == '=' then
        if s[3] == '=' && |s| == 4 then Some([first]) else None
      else if !IsSymbol(s[2]) then None
      else
        var second := Value(s[1]) % 16 * 16 + Value(s[2]) / 4;
        if s[3] == '=' then
          if |s| == 4 then Some([first, second]) else None
        else if !IsSymbol(s[3]) then None
        else
          var third := Value(s[2]) % 4 * 64 + Value(s[3]);
          var rest := Decode(s[4..]);
          if rest.None? then None else Some([first, second, third] + rest.value)
  }

  lemma {:induction false} PaddingIsAll(s: string)
    requires Padding(s, true).Some?
    ensures Padding(s, true).value == |s|
    decreases |s|
  {
    if s != "" {
      PaddingIsAll(s[1..]);
    }
  }

  lemma {:induction false} PaddingFits(s: string, sawPadding: bool)
    requires Padding(s, sawPadding).Some?
    ensures Padding(s, sawPadding).value <= |s|
    decreases |s|
  {
    if s != "" {
      PaddingFits(s[1..], !(IsSymbol(s[0]) && !sawPadding));
    }
  }

  /** From the first character that is no symbol on, all is padding. */
  lemma {:induction false} PaddingFrom(s: string, k: nat)
    requires k < |s| && (forall j | 0 <= j < k :: IsSymbol(s[j])) && !IsSymbol(s[k])
    ensures Padding(s, false).Some? ==> s[k] == '=' && Padding(s, false).value == |s| - k
    decreases k
  {
    if k == 0 {
      if Padding(s, false).Some? {
        PaddingIsAll(s[1..]);
      }
    } else {
      PaddingFrom(s[1..], k - 1);
    }
  }

  lemma PaddingPastSymbols(s: string)
    requires |s| >= 4 && IsSymbol(s[0]) && IsSymbol(s[1]) && IsSymbol(s[2]) && IsSymbol(s[3])
    ensures Padding(s, false) == Padding(s[4..], false)
  {
    hide IsSymbol;
    assert Padding(s, false) == Padding(s[1..], false);
    assert s[1..][0] == s[1] && s[1..][1..] == s[2..];
    assert Padding(s[1..], false) == Padding(s[2..], false);
    assert s[2..][0] == s[2] && s[2..][1..] == s[3..];
    assert Padding(s[2..], false) == Padding(s[3..], false);
    assert s[3..][0] == s[3] && s[3..][1..] == s[4..];
  }

  lemma OneOrTwoPads(s: string)
    requires |s| == 4 && IsSymbol(s[0]) && IsSymbol(s[1]) && !IsSymbol('=')
    ensures IsSymbol(s[2]) && s[3] == '=' ==> Padding(s, false) == Some(1)
    ensures s[2] == '=' && s[3] == '=' ==> Padding(s, false) == Some(2)
  {
    hide IsSymbol;
    assert Padding(s, false) == Padding(s[1..], false);
    assert s[1..][0] == s[1] && s[1..][1..] == s[2..];
    assert Padding(s[1..], false) == Padding(s[2..], false);
    assert s[2..][0] == s[2] && s[2..][1..] == s[3..];
    assert s[3..][0] == s[3] && s[3..][1..] == "";
    assert Padding("", true) == Some(0);
    if s[3] == '=' {
      assert Padding(s[3..], true) == Padding(s[3..], false) == Some(1);
    }
  }

  function LengthOf(s: string): Option<nat> {
    var padding := Padding(s, false);
    if padding.None? then None else LengthFrom(|s|, padding.value)
  }

  lemma EqualsIsNoSymbol()
    ensures !IsSymbol('=')
  {
  }

  lemma FourMoreSymbols(n: nat, padding: nat)
    requires padding <= n
    ensures var shorter := LengthFrom(n, padding);
      LengthFrom(n + 4, padding) == if shorter.None? then None else Some(shorter.value + 3)
  {
  }

  ghost predicate IsExact(s: string) {
    match Decode(s)
    case Some(bytes) => LengthOf(s) == Some(|bytes|)
    case None => LengthOf(s).None?
  }

  lemma FullGroup(s: string)
    requires |s| >= 4 && IsSymbol(s[0]) && IsSymbol(s[1]) && IsSymbol(s[2]) && IsSymbol(s[3])
    ensures Decode(s).Some? <==> Decode(s[4..]).Some?
    ensures Decode(s).Some? ==> |Decode(s).value| == |Decode(s[4..]).value| + 3
  {
    EqualsIsNoSymbol();
    hide Value, IsSymbol;
  }

  lemma FullGroupIsExact(s: string)
    requires |s| >= 4 && IsSymbol(s[0]) && IsSymbol(s[1]) && IsSymbol(s[2]) && IsSymbol(s[3]) && IsExact(s[4..])
    ensures IsExact(s)
  {
    hide Value, IsSymbol, Padding, LengthFrom, Decode;
    FullGroup(s);
    PaddingPastSymbols(s);
    if Padding(s[4..], false).Some? {
      PaddingFits(s[4..], false);
      FourMoreSymbols(|s| - 4, Padding(s[4..], false).value);
    }
  }

  lemma LastGroupIsExact(s: string)
    requires |s| >= 4 && !(IsSymbol(s[0]) && IsSymbol(s[1]) && IsSymbol(s[2]) && IsSymbol(s[3]))
    ensures IsExact(s)
  {
    EqualsIsNoSymbol();
    hide Value, IsSymbol, Padding;
    var k := if !IsSymbol(s[0]) then 0 else if !IsSymbol(s[1]) then 1 else if !IsSymbol(s[2]) then 2 else 3;
    PaddingFrom(s, k);
    if |s| == 4 && k >= 2 {
      OneOrTwoPads(s);
      if k == 2 && s[3] != '=' {
        PadsStopAtOther(s);
      }
    }
  }

  /** The length function accepts what the decoder accepts, and counts its bytes. */
  lemma {:induction false} LengthIsExact(s: string)
    ensures match Decode(s)
      case Some(bytes) => LengthOf(s) == Some(|bytes|)
      case None => LengthOf(s).None?
    decreases |s|
  {
    hide Value, IsSymbol, Padding;
    if s == "" {
      PaddingOfNothing();
    } else if |s| >= 4 {
      hide Decode, LengthOf;
      if IsSymbol(s[0]) && IsSymbol(s[1]) && IsSymbol(s[2]) && IsSymbol(s[3]) {
        LengthIsExact(s[4..]);
        FullGroupIsExact(s);
      } else {
        LastGroupIsExact(s);
      }
    }
  }

  /** A symbol after padding is no padding. */
  lemma PadsStopAtOther(s: string)
    requires |s| == 4 && IsSymbol(s[0]) && IsSymbol(s[1]) && !IsSymbol(s[2]) && s[3] != '='
    ensures Padding(s, false).None?
  {
    assert s[1..][0] == s[1] && s[1..][1..] == s[2..];
    assert s[2..][0] == s[2] && s[2..][1..] == s[3..];
    assert s[3..][0] == s[3];
    assert Padding(s[3..], true).None?;
    assert Padding(s[2..], false).None?;
    assert Padding(s, false) == Padding(s[1..], false) == Padding(s[2..], false);
  }

  lemma PaddingOfNothing()
    ensures Padding("", false) == Some(0)
  {
  }

  // ---- Decoding undoes encoding, whatever the line breaks

  lemma {:induction false} DecodingUndoesEncoding(bytes: seq<Byte>)
    ensures Decode(Encode(bytes)) == Some(bytes)
    decreases |bytes|
  {
    hide Symbol, Value;
    var s := Encode(bytes);
    EqualsIsNoSymbol();
    if |bytes| >= 3 {
      DecodingUndoesEncoding(bytes[3..]);
      assert s[4..] == Encode(bytes[3..]);
      assert [bytes[0], bytes[1], bytes[2]] + bytes[3..] == bytes;
    } else if bytes != [] {
      assert bytes == if |bytes| == 2 then [bytes[0], bytes[1]] else [bytes[0]];
    }
  }

  lemma {:induction false} EncodedIsData(bytes: seq<Byte>)
    ensures forall k | 0 <= k < |Encode(bytes)| :: !IsSpace(Encode(bytes)[k])
    decreases |bytes|
  {
    if |bytes| >= 3 {
      EncodedIsData(bytes[3..]);
    }
    assert forall v | 0 <= v < 64 :: Value(Symbol(v)) >= 0;
  }

  lemma {:induction false} DataConcat(a: string, b: string)
    ensures Data(a + b) == Data(a) + Data(b)
    decreases |a|
  {
    if a == "" {
      assert a + b == b;
    } else {
      assert (a + b)[1..] == a[1..] + b;
      DataConcat(a[1..], b);
    }
  }

  lemma {:induction false} DataKeeps(s: string)
    requires forall k | 0 <= k < |s| :: !IsSpace(s[k])
    ensures Data(s) == s
    decreases |s|
  {
    if s != "" {
      DataKeeps(s[1..]);
    }
  }

  lemma {:induction false} WrappingAddsOnlySpace(s: string)
    requires forall k | 0 <= k < |s| :: !IsSpace(s[k])
    ensures Data(Wrapped(s)) == s
    decreases |s|
  {
    if s != "" {
      var n := if |s| < LINE_LENGTH then |s| else LINE_LENGTH;
      WrappingAddsOnlySpace(s[n..]);
      DataKeeps(s[..n]);
      DataConcat(s[..n] + "\r\n", Wrapped(s[n..]));
      DataConcat(s[..n], "\r\n");
      CrlfIsSpace();
      assert s[..n] + "" + s[n..] == s;
    }
  }

  /** Each line with its line end. */
  function Ended(lines: seq<string>): string {
    if lines == [] then "" else lines[0] + "\r\n" + Ended(lines[1..])
  }

  /** Every line but the last is full. */
  lemma {:induction false} LinesAreFull(encoded: string) returns (lines: seq<string>)
    ensures Wrapped(encoded) == Ended(lines) && Concatenated(lines) == encoded
    ensures forall k | 0 <= k < |lines| :: 0 < |lines[k]| <= 76 && (k < |lines| - 1 ==> |lines[k]| == 76)
    decreases |encoded|
  {
    if encoded == "" {
      lines := [];
    } else {
      var n := if |encoded| < LINE_LENGTH then |encoded| else LINE_LENGTH;
      var rest := LinesAreFull(encoded[n..]);
      lines := [encoded[..n]] + rest;
      assert lines[1..] == rest && encoded[..n] + encoded[n..] == encoded;
      assert n < LINE_LENGTH ==> Concatenated(rest) == "";
    }
  }

  /** Only blanks and line ends of five kinds are passed over. */
  lemma SpaceIsPassedOver(before: string, c: char, after: string)
    ensures Data(before + [c] + after) ==
      Data(before) + (if c in [' ', '\t', '\n', '\r', '\U{0C}'] then "" else [c]) + Data(after)
  {
    DataConcat(before + [c], after);
    DataConcat(before, [c]);
    assert [c][1..] == "";
    assert Data([c]) == if IsSpace(c) then "" else [c];
  }

  lemma CrlfIsSpace()
    ensures Data("\r\n") == ""
  {
    assert "\r\n"[1..] == "\n" && "\n"[1..] == "";
  }

  /** Any bytes, written as an attachment body, have exactly their number as
      computed length, and decode to themselves. */
  lemma WrittenLengthIsExact(bytes: seq<Byte>)
    ensures var out := if bytes == [] then "\r\n" else Wrapped(Encode(bytes));
      DecodedLength(out) == Some(|bytes|) && Decode(Data(out)) == Some(bytes)
  {
    hide Decode, Encode, Data, Wrapped, IsSpace;
    EncodedIsData(bytes);
    WrappingAddsOnlySpace(Encode(bytes));
    CrlfIsSpace();
    DecodingUndoesEncoding(bytes);
    LengthIsExact(Encode(bytes));
    NothingEncodes();
  }

  lemma NothingEncodes()
    ensures Encode([]) == ""
  {
  }

  // ---- Unused bits

  /** The bits of the last symbol that stand for no byte are zero. */
  predicate UnusedBitsAreZero(s: string) {
    |s| >= 4 && s[|s| - 1] == '=' ==>
      if s[|s| - 2] == '=' then Value(s[|s| - 3]) % 16 == 0 else Value(s[|s| - 2]) % 4 == 0
  }

  lemma SymbolOfValue(c: char)
    requires IsSymbol(c)
    ensures Symbol(Value(c)) == c
  {
  }

  lemma SextetsOfBytes(a: int, b: int, c: int, d: int)
    requires 0 <= a < 64 && 0 <= b < 64 && 0 <= c < 64 && 0 <= d < 64
    ensures var (x, y, z) := (a * 4 + b / 16, b % 16 * 16 + c / 4, c % 4 * 64 + d);
      && 0 <= x < 256 && 0 <= y < 256 && 0 <= z < 256
      && x / 4 == a && x % 4 * 16 + y / 16 == b && y % 16 * 4 + z / 64 == c && z % 64 == d
  {
  }

  lemma EncodeGroup(x: Byte, y: Byte, z: Byte, rest: seq<Byte>)
    ensures Encode([x, y, z] + rest) ==
      [Symbol(x / 4), Symbol(x % 4 * 16 + y / 16), Symbol(y % 16 * 4 + z / 64), Symbol(z % 64)] + Encode(rest)
  {
    assert ([x, y, z] + rest)[3..] == rest;
    hide Symbol;
  }

  lemma DecodeGroup(s: string)
    requires |s| >= 4 && IsSymbol(s[0]) && IsSymbol(s[1]) && IsSymbol(s[2]) && IsSymbol(s[3]) && Decode(s).Some?
    ensures var (a, b, c, d) := (Value(s[0]), Value(s[1]), Value(s[2]), Value(s[3]));
      && a >= 0 && b >= 0 && c >= 0 && d >= 0 && Decode(s[4..]).Some?
      && Decode(s).value == [a * 4 + b / 16, b % 16 * 16 + c / 4, c % 4 * 64 + d] + Decode(s[4..]).value
  {
    EqualsIsNoSymbol();
    hide Value;
  }

  lemma GroupReencodes(s: string)
    requires |s| >= 4 && IsSymbol(s[0]) && IsSymbol(s[1]) && IsSymbol(s[2]) && IsSymbol(s[3]) && Decode(s).Some?
    ensures Decode(s[4..]).Some?
    ensures Encode(Decode(s).value) == s[..4] + Encode(Decode(s[4..]).value)
  {
    hide *;
    SymbolOfValue(s[0]);
    SymbolOfValue(s[1]);
    SymbolOfValue(s[2]);
    SymbolOfValue(s[3]);
    DecodeGroup(s);
    var (a, b, c, d) := (Value(s[0]), Value(s[1]), Value(s[2]), Value(s[3]));
    SextetsOfBytes(a, b, c, d);
    EncodeGroup(a * 4 + b / 16, b % 16 * 16 + c / 4, c % 4 * 64 + d, Decode(s[4..]).value);
    assert s[..4] == [s[0], s[1], s[2], s[3]];
  }

  lemma OneByteReencodes(a: char, b: char)
    requires IsSymbol(a) && IsSymbol(b)
    ensures Encode([Value(a) * 4 + Value(b) / 16]) == [a, b, '=', '='] <==> Value(b) % 16 == 0
  {
    SymbolOfValue(a);
    SymbolOfValue(b);
    var x := Value(a) * 4 + Value(b) / 16;
    assert x / 4 == Value(a) && x % 4 * 16 == Value(b) - Value(b) % 16;
    hide Value, IsSymbol, Symbol;
    assert Encode([x])[1] == Symbol(x % 4 * 16) && Value(Symbol(x % 4 * 16)) == x % 4 * 16;
  }

  lemma TwoBytesReencode(a: char, b: char, c: char)
    requires IsSymbol(a) && IsSymbol(b) && IsSymbol(c)
    ensures var (x, y) := (Value(a) * 4 + Value(b) / 16, Value(b) % 16 * 16 + Value(c) / 4);
      Encode([x, y]) == [a, b, c, '='] <==> Value(c) % 4 == 0
  {
    SymbolOfValue(a);
    SymbolOfValue(b);
    SymbolOfValue(c);
    var (x, y) := (Value(a) * 4 + Value(b) / 16, Value(b) % 16 * 16 + Value(c) / 4);
    SextetsOfBytes(Value(a), Value(b), Value(c), 0);
    assert y % 16 * 4 == Value(c) - Value(c) % 4 && y / 16 == Value(b) % 16;
    hide Value, IsSymbol, Symbol;
    assert Encode([x, y])[2] == Symbol(y % 16 * 4) && Value(Symbol(y % 16 * 4)) == y % 16 * 4;
  }

  lemma LastGroupReencodes(s: string)
    requires |s| >= 4 && !(IsSymbol(s[0]) && IsSymbol(s[1]) && IsSymbol(s[2]) && IsSymbol(s[3])) && Decode(s).Some?
    ensures |s| == 4 && (Encode(Decode(s).value) == s <==> UnusedBitsAreZero(s))
  {
    EqualsIsNoSymbol();
    hide Value, IsSymbol, Encode;
    assert |s| == 4 && s[3] == '=';
    assert s == [s[0], s[1], s[2], s[3]];
    if s[2] == '=' {
      OneByteReencodes(s[0], s[1]);
    } else {
      TwoBytesReencode(s[0], s[1], s[2]);
    }
  }

  lemma ZeroBitsOfTail(s: string)
    requires |s| >= 8
    ensures UnusedBitsAreZero(s) == UnusedBitsAreZero(s[4..])
  {
    hide Value;
  }

  lemma LastOfSymbols(s: string)
    requires |s| == 4 && IsSymbol(s[3])
    ensures UnusedBitsAreZero(s)
  {
    EqualsIsNoSymbol();
  }

  /** Encoding undoes decoding exactly if no unused bit was set. */
  lemma {:induction false} EncodingUndoesDecoding(s: string)
    requires Decode(s).Some?
    ensures Encode(Decode(s).value) == s <==> UnusedBitsAreZero(s)
    decreases |s|
  {
    hide Value, Symbol, IsSymbol, UnusedBitsAreZero;
    if s == "" {
      NothingIsUnused();
    } else if IsSymbol(s[0]) && IsSymbol(s[1]) && IsSymbol(s[2]) && IsSymbol(s[3]) {
      GroupReencodes(s);
      EncodingUndoesDecoding(s[4..]);
      hide Decode, Encode;
      assert s == s[..4] + s[4..];
      TailsAreEqual(s[..4], Encode(Decode(s[4..]).value), s[4..]);
      if |s| >= 8 {
        ZeroBitsOfTail(s);
      } else {
        ShortDecodes(s[4..]);
        LastOfSymbols(s);
        NothingIsUnused();
      }
    } else {
      LastGroupReencodes(s);
    }
  }

  lemma NothingIsUnused()
    ensures UnusedBitsAreZero("") && Encode([]) == ""
  {
  }

  lemma ShortDecodes(s: string)
    requires |s| < 4 && Decode(s).Some?
    ensures s == ""
  {
  }

  lemma TailsAreEqual(a: string, b: string, c: string)
    ensures a + b == a + c <==> b == c
  {
    if a + b == a + c {
      assert (a + b)[|a|..] == b && (a + c)[|a|..] == c;
    }
  }
}
