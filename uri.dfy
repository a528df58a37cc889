/**
 * `encodeURIComponent` and `decodeURIComponent` of ECMA-262 (section 19.2.6), which
 * percent-encode as section 2.1 of RFC 3986 describes: every character outside
 * `A-Z a-z 0-9 - _ . ! ~ * ' ( )` is written as the `%XX` escapes (upper-case hex)
 * of its UTF-8 bytes (RFC 3629), and decoding reverses this, failing (a `URIError`
 * in JavaScript, `None` here) on a malformed escape or an invalid UTF-8 sequence.
 * A Dafny `char` is a Unicode scalar value, so the encoder's lone-surrogate error
 * cannot arise.
 */
module Uri {
  import opened Wrappers

  /** The characters `encodeURIComponent` leaves as they are. */
  predicate IsUnreserved(c: char)
  {
    || ('A' <= c <= 'Z') || ('a' <= c <= 'z') || ('0' <= c <= '9')
    || c == '-' || c == '_' || c == '.' || c == '!' || c == '~'
    || c == '*' || c == '\'' || c == '(' || c == ')'
  }

  /** An upper-case hexadecimal digit. */
  function HexDigit(n: nat): (c: char)
    requires n < 16
    ensures IsUnreserved(c)
  {
    if n < 10 then ('0' as int + n) as char else ('A' as int + n - 10) as char
  }

  /** The value of a hexadecimal digit of either case. */
  function HexValue(c: char): (r: Option<nat>)
    ensures r.Some? ==> r.value < 16
  {
    if '0' <= c <= '9' then Some(c as int - '0' as int)
    else if 'A' <= c <= 'F' then Some(c as int - 'A' as int + 10)
    else if 'a' <= c <= 'f' then Some(c as int - 'a' as int + 10)
    else None
  }

  /** The `%XX` escape of one byte. */
  function Escape(b: nat): string
    requires b < 256
  {
    ['%', HexDigit(b / 16), HexDigit(b % 16)]
  }

  predicate AreBytes(bs: seq<nat>)
  {
    forall i :: 0 <= i < |bs| ==> bs[i] < 256
  }

  /** The UTF-8 encoding of a scalar value (RFC 3629, section 3). */
  function Utf8(c: char): (bs: seq<nat>)
    ensures 1 <= |bs| <= 4 && AreBytes(bs)
  {
    var n := c as int;
    var q1, r1 := n / 64, n % 64;
    var q2, r2 := q1 / 64, q1 % 64;
    var q3, r3 := q2 / 64, q2 % 64;
    if n < 0x80 then [n]
    else if n < 0x800 then [0xC0 + q1, 0x80 + r1]
    else if n < 0x10000 then [0xE0 + q2, 0x80 + r2, 0x80 + r1]
    else [0xF0 + q3, 0x80 + r3, 0x80 + r2, 0x80 + r1]
  }

  /** The escapes of a run of bytes, one after the other. */
  function EscapeBytes(bs: seq<nat>): (r: string)
    requires AreBytes(bs)
    ensures |r| == 3 * |bs|
  {
    if bs == [] then "" else Escape(bs[0]) + EscapeBytes(bs[1..])
  }

  function EncodeChar(c: char): string
  {
    if IsUnreserved(c) then [c] else EscapeBytes(Utf8(c))
  }

  /** `encodeURIComponent(s)`. */
  function EncodeURIComponent(s: string): (r: string)
  {
    if s == [] then "" else EncodeChar(s[0]) + EncodeURIComponent(s[1..])
  }

  /** The byte written as `%XX` at index `k`, if there is a well-formed escape there. */
  function ReadByte(s: string, k: nat): (r: Option<nat>)
    ensures r.Some? ==> r.value < 256 && k + 3 <= |s|
  {
    if k + 2 < |s| && s[k] == '%' then
      match (HexValue(s[k + 1]), HexValue(s[k + 2]))
      case (Some(h), Some(l)) => Some(16 * h + l)
      case _ => None
    else None
  }

  /** How many bytes a UTF-8 sequence starting with `b` has; 0 when `b` cannot start one. */
  function LeadLength(b: nat): nat
  {
    if b < 0x80 then 1
    else if b < 0xC0 then 0
    else if b < 0xE0 then 2
    else if b < 0xF0 then 3
    else if b < 0xF8 then 4
    else 0
  }

  /** `count` escaped continuation bytes (`10xxxxxx`) from index `k`; their six payload bits each. */
  function ReadContinuations(s: string, k: nat, count: nat): (r: Option<seq<nat>>)
    ensures r.Some? ==> |r.value| == count && k + 3 * count <= |s| + (if count == 0 then k else 0)
    ensures r.Some? ==> forall i :: 0 <= i < count ==> r.value[i] < 64
    decreases count
  {
    if count == 0 then Some([])
    else match ReadByte(s, k)
      case None => None
      case Some(b) =>
        if 0x80 <= b < 0xC0 then
          match ReadContinuations(s, k + 3, count - 1)
          case None => None
          case Some(rest) => Some([b - 0x80] + rest)
        else None
  }

  /** The code point a lead byte and its continuation payloads spell. */
  function CodePoint(b0: nat, p: seq<nat>): int
    requires 1 <= |p| <= 3
  {
    if |p| == 1 then (b0 - 0xC0) * 64 + p[0]
    else if |p| == 2 then (b0 - 0xE0) * 4096 + p[0] * 64 + p[1]
    else (b0 - 0xF0) * 262144 + p[0] * 4096 + p[1] * 64 + p[2]
  }

  /** The scalar values, as a Dafny `char` ranges over them. */
  predicate IsScalarValue(n: int)
  {
    (0 <= n < 0xD800) || (0xE000 <= n < 0x110000)
  }

  /** The smallest code point an `n`-byte sequence may encode (shorter forms are overlong). */
  function MinCodePoint(n: nat): nat
  {
    if n == 2 then 0x80 else if n == 3 then 0x800 else 0x10000
  }

  /** One character decoded from the escapes at the start of `s`, with the number of characters consumed. */
  function DecodeEscape(s: string): (r: Option<(char, nat)>)
    requires |s| > 0 && s[0] == '%'
    ensures r.Some? ==> 3 <= r.value.1 <= |s|
  {
    match ReadByte(s, 0)
    case None => None
    case Some(b0) =>
      var n := LeadLength(b0);
      if n == 1 then Some((b0 as char, 3))
      else if n == 0 then None
      else
        match ReadContinuations(s, 3, n - 1)
        case None => None
        case Some(p) =>
          var cp := CodePoint(b0, p);
          if MinCodePoint(n) <= cp && IsScalarValue(cp) then Some((cp as char, 3 * n)) else None
  }

  function Prepend(c: char, r: Option<string>): Option<string>
  {
    if r.Some? then Some([c] + r.value) else None
  }

  /** `decodeURIComponent(s)`; `None` where JavaScript throws a `URIError`. */
  function DecodeURIComponent(s: string): Option<string>
    decreases |s|
  {
    if s == [] then Some("")
    else if s[0] != '%' then Prepend(s[0], DecodeURIComponent(s[1..]))
    else
      match DecodeEscape(s)
      case None => None
      case Some((c, len)) => Prepend(c, DecodeURIComponent(s[len..]))
  }

  // ---------------------------------------------------------------------------
  // Properties of the encoder

  lemma {:induction false} EscapeBytesCharset(bs: seq<nat>)
    requires AreBytes(bs)
    ensures forall i :: 0 <= i < |EscapeBytes(bs)| ==> IsUnreserved(EscapeBytes(bs)[i]) || EscapeBytes(bs)[i] == '%'
    decreases |bs|
  {
    if bs != [] {
      EscapeBytesCharset(bs[1..]);
    }
  }

  /**
   * Every character `encodeURIComponent` emits is unreserved or `%`; in particular it
   * emits no `/`, `[`, `]`, `?`, `&`, `=` or `$`.
   */
  lemma {:induction false} EncodedCharset(s: string)
    ensures forall i :: 0 <= i < |EncodeURIComponent(s)| ==>
      IsUnreserved(EncodeURIComponent(s)[i]) || EncodeURIComponent(s)[i] == '%'
    decreases |s|
  {
    if s != [] {
      EncodedCharset(s[1..]);
      if !IsUnreserved(s[0]) {
        EscapeBytesCharset(Utf8(s[0]));
      }
    }
  }

  /** The encoder never emits the characters the router splits or joins on. */
  lemma EncodedHasNo(s: string, c: char)
    requires !IsUnreserved(c) && c != '%'
    ensures c !in EncodeURIComponent(s)
  {
    EncodedCharset(s);
  }

  /** Encoding leaves a string of unreserved characters as it is, and empties only the empty string. */
  lemma {:induction false} EncodeUnreserved(s: string)
    ensures (forall i :: 0 <= i < |s| ==> IsUnreserved(s[i])) ==> EncodeURIComponent(s) == s
    ensures |EncodeURIComponent(s)| >= |s|
    decreases |s|
  {
    if s != [] {
      EncodeUnreserved(s[1..]);
      assert [s[0]] + s[1..] == s;
    }
  }

  // ---------------------------------------------------------------------------
  // Decoding what was encoded

  lemma HexRoundTrip(n: nat)
    requires n < 16
    ensures HexValue(HexDigit(n)) == Some(n)
  {
  }

  lemma ReadEscape(s: string, k: nat, b: nat)
    requires b < 256 && k + 3 <= |s| && s[k..k + 3] == Escape(b)
    ensures ReadByte(s, k) == Some(b)
  {
    assert s[k] == '%' && s[k + 1] == HexDigit(b / 16) && s[k + 2] == HexDigit(b % 16);
    HexRoundTrip(b / 16);
    HexRoundTrip(b % 16);
  }

  /** The six payload bits of each continuation byte. */
  function Payload(bs: seq<nat>): (p: seq<nat>)
    requires forall i :: 0 <= i < |bs| ==> 0x80 <= bs[i]
    ensures |p| == |bs|
  {
    if bs == [] then [] else [bs[0] - 0x80] + Payload(bs[1..])
  }

  predicate AreContinuations(bs: seq<nat>)
  {
    forall i :: 0 <= i < |bs| ==> 0x80 <= bs[i] < 0xC0
  }

  /** Reading past a prefix reads the rest. */
  lemma ReadByteShift(p: string, t: string, m: nat)
    ensures ReadByte(p + t, |p| + m) == ReadByte(t, m)
  {
    if m + 2 < |t| {
      assert (p + t)[|p| + m] == t[m] && (p + t)[|p| + m + 1] == t[m + 1] && (p + t)[|p| + m + 2] == t[m + 2];
    }
  }

  /** Each escape of an escaped byte sequence reads back as its byte, whatever follows. */
  lemma {:induction false} EscapedReads(bs: seq<nat>, rest: string)
    requires AreBytes(bs)
    ensures forall j :: 0 <= j < |bs| ==> ReadByte(EscapeBytes(bs) + rest, 3 * j) == Some(bs[j])
    decreases |bs|
  {
    if bs != [] {
      var s := EscapeBytes(bs) + rest;
      var t := EscapeBytes(bs[1..]) + rest;
      assert s == Escape(bs[0]) + t;
      EscapedReads(bs[1..], rest);
      forall j | 0 <= j < |bs|
        ensures ReadByte(s, 3 * j) == Some(bs[j])
      {
        if j == 0 {
          assert s[0..3] == Escape(bs[0]);
          ReadEscape(s, 0, bs[0]);
        } else {
          ReadByteShift(Escape(bs[0]), t, 3 * (j - 1));
          assert ReadByte(t, 3 * (j - 1)) == Some(bs[1..][j - 1]);
        }
      }
    }
  }

  lemma {:induction false} ReadEscapedContinuations(s: string, k: nat, bs: seq<nat>)
    requires AreContinuations(bs)
    requires forall j :: 0 <= j < |bs| ==> ReadByte(s, k + 3 * j) == Some(bs[j])
    ensures ReadContinuations(s, k, |bs|) == Some(Payload(bs))
    decreases |bs|
  {
    if bs != [] {
      var tail := bs[1..];
      assert ReadByte(s, k + 3 * 0) == Some(bs[0]);
      forall j | 0 <= j < |tail|
        ensures ReadByte(s, k + 3 + 3 * j) == Some(tail[j])
      {
        assert ReadByte(s, k + 3 * (j + 1)) == Some(bs[j + 1]);
      }
      assert AreContinuations(tail);
      ReadEscapedContinuations(s, k + 3, tail);
      ReadContinuationsStep(s, k, |bs|, bs[0], Payload(tail));
    }
  }

  lemma ReadContinuationsStep(s: string, k: nat, count: nat, b: nat, rest: seq<nat>)
    requires count > 0 && ReadByte(s, k) == Some(b) && 0x80 <= b < 0xC0
    requires ReadContinuations(s, k + 3, count - 1) == Some(rest)
    ensures ReadContinuations(s, k, count) == Some([b - 0x80] + rest)
  {
  }

  /** What makes the bytes of a non-ASCII character decode back to it. */
  predicate DecodesTo(bs: seq<nat>, c: char)
    requires 2 <= |bs| <= 4 && AreBytes(bs) && AreContinuations(bs[1..])
  {
    && LeadLength(bs[0]) == |bs|
    && CodePoint(bs[0], Payload(bs[1..])) == c as int
    && MinCodePoint(|bs|) <= c as int
  }

  /** The arithmetic of RFC 3629: the bytes `Utf8` writes spell the character back. */
  lemma Utf8Decodes(c: char)
    requires !(c as int < 0x80)
    ensures var bs := Utf8(c); 2 <= |bs| && AreContinuations(bs[1..]) && DecodesTo(bs, c)
  {
    var n := c as int;
    var q1, r1 := n / 64, n % 64;
    var q2, r2 := q1 / 64, q1 % 64;
    var q3, r3 := q2 / 64, q2 % 64;
    assert n == 64 * q1 + r1 && q1 == 64 * q2 + r2 && q2 == 64 * q3 + r3;
    var bs := Utf8(c);
    if n < 0x800 {
      assert bs == [0xC0 + q1, 0x80 + r1];
      assert Payload(bs[1..]) == [r1];
    } else if n < 0x10000 {
      assert bs == [0xE0 + q2, 0x80 + r2, 0x80 + r1];
      assert Payload(bs[1..]) == [r2, r1];
    } else {
      assert bs == [0xF0 + q3, 0x80 + r3, 0x80 + r2, 0x80 + r1];
      assert Payload(bs[3..]) == [r1];
      assert Payload(bs[2..]) == [r2, r1];
      assert Payload(bs[1..]) == [r3, r2, r1];
    }
  }

  /** The continuation escapes of a non-ASCII character read back as their payloads. */
  lemma ReadCharContinuations(c: char, rest: string)
    requires !(c as int < 0x80)
    ensures var bs := Utf8(c);
      2 <= |bs| && AreContinuations(bs[1..])
      && ReadContinuations(EscapeBytes(bs) + rest, 3, |bs| - 1) == Some(Payload(bs[1..]))
  {
    var bs := Utf8(c);
    var s := EscapeBytes(bs) + rest;
    Utf8Decodes(c);
    EscapedReads(bs, rest);
    forall j | 0 <= j < |bs[1..]|
      ensures ReadByte(s, 3 + 3 * j) == Some(bs[1..][j])
    {
      assert ReadByte(s, 3 * (j + 1)) == Some(bs[j + 1]);
    }
    ReadEscapedContinuations(s, 3, bs[1..]);
  }

  /** The escapes of a character's UTF-8 bytes decode to that character, consuming exactly them. */
  lemma DecodeEscapedChar(c: char, rest: string)
    ensures var s := EscapeBytes(Utf8(c)) + rest;
      |s| > 0 && s[0] == '%' && DecodeEscape(s) == Some((c, 3 * |Utf8(c)|))
  {
    var bs := Utf8(c);
    var s := EscapeBytes(bs) + rest;
    EscapedReads(bs, rest);
    assert ReadByte(s, 3 * 0) == Some(bs[0]);
    if c as int >= 0x80 {
      Utf8Decodes(c);
      ReadCharContinuations(c, rest);
    }
  }

  /** Decoding the encoding of one character and a rest gives the character before the decoded rest. */
  lemma DecodeEncodeChar(c: char, rest: string)
    ensures DecodeURIComponent(EncodeChar(c) + rest) == Prepend(c, DecodeURIComponent(rest))
  {
    var s := EncodeChar(c) + rest;
    if IsUnreserved(c) {
      assert s[0] == c && s[1..] == rest;
    } else {
      DecodeEscapedChar(c, rest);
      assert s[3 * |Utf8(c)|..] == rest;
    }
  }

  /** `decodeURIComponent(encodeURIComponent(s)) == s`. */
  lemma {:induction false} DecodeEncode(s: string)
    ensures DecodeURIComponent(EncodeURIComponent(s)) == Some(s)
    decreases |s|
  {
    if s != [] {
      DecodeEncode(s[1..]);
      DecodeEncodeChar(s[0], EncodeURIComponent(s[1..]));
      assert [s[0]] + s[1..] == s;
    }
  }
}
