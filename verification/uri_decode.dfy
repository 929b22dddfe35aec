/**
 * Decoding of the object key carried by the trigger event: every literal
 * `+` becomes a space, then the result goes through ECMAScript's
 * `decodeURIComponent` (the Decode operation of ECMA-262 with an empty
 * reserved set, percent-escapes as in section 2.1 of RFC 3986, multi-byte
 * escapes as UTF-8 per RFC 3629). `None` stands for the `URIError` that
 * `decodeURIComponent` throws.
 */
module UriDecode {
  import opened Wrappers

  // ---- Hexadecimal digits ----

  /** The value of a hexadecimal digit of either case. */
  function HexValue(c: char): (r: Option<nat>)
    ensures r.Some? ==> r.value < 16
  {
    if '0' <= c <= '9' then Some(c as int - '0' as int)
    else if 'A' <= c <= 'F' then Some(c as int - 'A' as int + 10)
    else if 'a' <= c <= 'f' then Some(c as int - 'a' as int + 10)
    else None
  }

  /** The upper-case hexadecimal digit for `d`. */
  function HexDigit(d: nat): (c: char)
    requires d < 16
    ensures HexValue(c) == Some(d)
  {
    if d < 10 then ('0' as int + d) as char else ('A' as int + d - 10) as char
  }

  // ---- Escapes and UTF-8 sequences ----

  /** The byte denoted by an escape `%XY` at the start of `s`, if there is one. */
  function EscapedByte(s: string): (r: Option<nat>)
    ensures r.Some? <==> |s| >= 3 && s[0] == '%' && HexValue(s[1]).Some? && HexValue(s[2]).Some?
    ensures r.Some? ==> r.value == 16 * HexValue(s[1]).value + HexValue(s[2]).value && r.value < 256
  {
    if |s| >= 3 && s[0] == '%' then
      match (HexValue(s[1]), HexValue(s[2]))
      case (Some(hi), Some(lo)) => Some(16 * hi + lo)
      case _ => None
    else None
  }

  predicate IsContinuation(b: nat) { 0x80 <= b < 0xC0 }

  /**
   * The number of bytes of the UTF-8 sequence that lead byte `b` opens,
   * or 0 when `b` cannot open one (a continuation byte, or five or more
   * leading one bits).
   */
  function SequenceLength(b: nat): (n: nat)
    requires b < 256
    ensures n <= 4
  {
    if b < 0x80 then 1
    else if b < 0xC0 then 0
    else if b < 0xE0 then 2
    else if b < 0xF0 then 3
    else if b < 0xF8 then 4
    else 0
  }

  /**
   * The low six bits of `count` consecutive escapes at the start of `s`,
   * each of which must denote a continuation byte.
   */
  function Payloads(s: string, count: nat): (r: Option<seq<nat>>)
    ensures r.Some? ==> |r.value| == count && 3 * count <= |s|
    ensures r.Some? ==> forall i :: 0 <= i < count ==> r.value[i] < 64
  {
    if count == 0 then Some([])
    else match EscapedByte(s)
      case Some(b) =>
        if IsContinuation(b) then
          match Payloads(s[3..], count - 1)
          case Some(rest) => Some([b - 0x80] + rest)
          case None => None
        else None
      case None => None
  }

  /** The code point that lead byte `lead` and its continuation payloads encode. */
  function CodePoint(lead: nat, payloads: seq<nat>): int
    requires 1 <= |payloads| <= 3
  {
    if |payloads| == 1 then (lead - 0xC0) * 64 + payloads[0]
    else if |payloads| == 2 then (lead - 0xE0) * 4096 + payloads[0] * 64 + payloads[1]
    else (lead - 0xF0) * 262144 + payloads[0] * 4096 + payloads[1] * 64 + payloads[2]
  }

  /** A Unicode scalar value: a code point that is not a surrogate. */
  predicate IsScalar(cp: int) { 0 <= cp < 0xD800 || 0xE000 <= cp < 0x110000 }

  /** The smallest code point an `n`-byte sequence may encode (shorter forms are overlong). */
  function MinCodePoint(n: nat): nat
    requires 2 <= n <= 4
  {
    if n == 2 then 0x80 else if n == 3 then 0x800 else 0x10000
  }

  /**
   * Decodes the escaped character at the start of `s`: one escape for an
   * ASCII byte, or a whole UTF-8 sequence of two to four escapes. Yields
   * the character and the number of input characters consumed.
   */
  function DecodeEscape(s: string): (r: Option<(char, nat)>)
    ensures r.Some? ==> 3 <= r.value.1 <= |s| && r.value.1 % 3 == 0
  {
    match EscapedByte(s)
    case None => None
    case Some(b) =>
      if b < 0x80 then Some((b as char, 3))
      else
        var n := SequenceLength(b);
        if n < 2 then None
        else match Payloads(s[3..], n - 1)
          case None => None
          case Some(p) =>
            var cp := CodePoint(b, p);
            if MinCodePoint(n) <= cp && IsScalar(cp) then Some((cp as char, 3 * n)) else None
  }

  /**
   * `decodeURIComponent(s)`: characters other than `%` are kept, every
   * escape is decoded, and any malformed escape or invalid UTF-8 makes the
   * whole call fail.
   */
  function PercentDecode(s: string): (r: Option<string>)
    ensures r.Some? ==> |r.value| <= |s|
    ensures '%' !in s ==> r == Some(s)
    decreases |s|
  {
    if s == [] then Some([])
    else if s[0] != '%' then
      assert s == [s[0]] + s[1..];
      match PercentDecode(s[1..])
      case Some(t) => Some([s[0]] + t)
      case None => None
    else
      match DecodeEscape(s)
      case None => None
      case Some((c, used)) =>
        match PercentDecode(s[used..])
        case Some(t) => Some([c] + t)
        case None => None
  }

  /** `key.replace(/\+/g, ' ')`. */
  function PlusToSpace(s: string): (r: string)
    ensures |r| == |s|
    ensures forall i :: 0 <= i < |s| ==> r[i] == if s[i] == '+' then ' ' else s[i]
  {
    if s == [] then [] else [if s[0] == '+' then ' ' else s[0]] + PlusToSpace(s[1..])
  }

  /** The object key as the handler decodes it (index.mjs line 26). */
  function DecodeKey(raw: string): (r: Option<string>)
    ensures '%' !in raw && '+' !in raw ==> r == Some(raw)
  {
    var spaced := PlusToSpace(raw);
    assert '%' !in raw ==> '%' !in spaced;
    assert '+' !in raw ==> spaced == raw;
    PercentDecode(spaced)
  }

  // ---- Every '%' that decoding accepts opens a complete escape ----

  /** Every `%` in `s` is followed by two hexadecimal digits. */
  predicate WellEscaped(s: string) {
    forall p :: 0 <= p < |s| && s[p] == '%' ==>
      p + 2 < |s| && HexValue(s[p + 1]).Some? && HexValue(s[p + 2]).Some?
  }

  lemma {:induction false} PayloadsWellEscaped(s: string, count: nat)
    requires Payloads(s, count).Some?
    ensures WellEscaped(s[..3 * count])
  {
    if count > 0 {
      PayloadsWellEscaped(s[3..], count - 1);
      var t := s[..3 * count];
      assert t[3..] == s[3..][..3 * (count - 1)];
      forall p | 0 <= p < |t| && t[p] == '%'
        ensures p + 2 < |t| && HexValue(t[p + 1]).Some? && HexValue(t[p + 2]).Some?
      {
        if p >= 3 {
          assert t[3..][p - 3] == '%';
        }
      }
    }
  }

  lemma DecodeEscapeWellEscaped(s: string)
    requires DecodeEscape(s).Some?
    ensures WellEscaped(s[..DecodeEscape(s).value.1])
  {
    var b := EscapedByte(s).value;
    if b >= 0x80 {
      var n := SequenceLength(b);
      PayloadsWellEscaped(s[3..], n - 1);
      var t := s[..3 * n];
      assert t[3..] == s[3..][..3 * (n - 1)];
      forall p | 0 <= p < |t| && t[p] == '%'
        ensures p + 2 < |t| && HexValue(t[p + 1]).Some? && HexValue(t[p + 2]).Some?
      {
        if p >= 3 {
          assert t[3..][p - 3] == '%';
        }
      }
    }
  }

  lemma WellEscapedConcat(a: string, b: string)
    requires WellEscaped(a) && WellEscaped(b)
    ensures WellEscaped(a + b)
  {
    forall p | 0 <= p < |a + b| && (a + b)[p] == '%'
      ensures p + 2 < |a + b| && HexValue((a + b)[p + 1]).Some? && HexValue((a + b)[p + 2]).Some?
    {
      if p >= |a| {
        assert b[p - |a|] == '%';
      }
    }
  }

  lemma WellEscapedSplit(s: string, k: nat)
    requires k <= |s| && WellEscaped(s[..k]) && WellEscaped(s[k..])
    ensures WellEscaped(s)
  {
    WellEscapedConcat(s[..k], s[k..]);
    assert s[..k] + s[k..] == s;
  }

  /** How many characters decoding consumes first: a plain character, or one escaped character. */
  function FirstUnit(s: string): (n: nat)
    requires s != [] && PercentDecode(s).Some?
    ensures 1 <= n <= |s|
  {
    if s[0] != '%' then 1 else DecodeEscape(s).value.1
  }

  lemma DecodeStep(s: string)
    requires s != [] && PercentDecode(s).Some?
    ensures PercentDecode(s[FirstUnit(s)..]).Some?
    ensures WellEscaped(s[..FirstUnit(s)])
  {
    if s[0] == '%' {
      DecodeEscapeWellEscaped(s);
    } else {
      assert s[..1] == [s[0]];
    }
  }

  /**
   * Decoding succeeds only when every `%` opens a complete escape: a `%`
   * near the end of the key, or followed by a non-hexadecimal character,
   * makes the handler fail.
   */
  lemma {:induction false} DecodedIsWellEscaped(s: string)
    requires PercentDecode(s).Some?
    ensures WellEscaped(s)
    decreases |s|
  {
    if s != [] {
      var used := FirstUnit(s);
      DecodeStep(s);
      DecodedIsWellEscaped(s[used..]);
      WellEscapedSplit(s, used);
    }
  }

  /** A malformed escape anywhere in the raw key makes key decoding fail. */
  lemma MalformedKeyFails(raw: string, p: nat)
    requires p < |raw| && raw[p] == '%'
    requires p + 2 >= |raw| || HexValue(raw[p + 1]).None? || HexValue(raw[p + 2]).None?
    ensures DecodeKey(raw).None?
  {
    var spaced := PlusToSpace(raw);
    if PercentDecode(spaced).Some? {
      DecodedIsWellEscaped(spaced);
      assert false;
    }
  }

  // ---- An encoder, as partner of the decoder ----

  /** The escape `%XY` for byte `b`, with upper-case digits. */
  function EscapeByte(b: nat): string
    requires b < 256
  {
    ['%', HexDigit(b / 16), HexDigit(b % 16)]
  }

  function EscapeBytes(bs: seq<nat>): string
    requires forall i :: 0 <= i < |bs| ==> bs[i] < 256
  {
    if bs == [] then [] else EscapeByte(bs[0]) + EscapeBytes(bs[1..])
  }

  /** The UTF-8 encoding of `c` (RFC 3629). */
  function Utf8Bytes(c: char): (bs: seq<nat>)
    ensures 1 <= |bs| <= 4
    ensures forall i :: 0 <= i < |bs| ==> bs[i] < 256
  {
    var cp := c as int;
    if cp < 0x80 then [cp]
    else if cp < 0x800 then [0xC0 + cp / 64, 0x80 + cp % 64]
    else if cp < 0x10000 then [0xE0 + cp / 4096, 0x80 + (cp / 64) % 64, 0x80 + cp % 64]
    else [0xF0 + cp / 262144, 0x80 + (cp / 4096) % 64, 0x80 + (cp / 64) % 64, 0x80 + cp % 64]
  }

  /** Whether a character must be percent-escaped in a form-encoded key, whatever else the encoder escapes. */
  predicate MustEscape(c: char) {
    c == '+' || c == '%' || c as int >= 0x80
  }

  /**
   * One character of an object key, form-encoded: a space as `+`; `+`,
   * `%`, every non-ASCII character and whichever further characters
   * `esc` selects as percent-escaped UTF-8; any other character as
   * itself. The source does not fix which ASCII characters the event
   * escapes, so `esc` leaves that open.
   */
  function EncodeKeyChar(c: char, esc: char -> bool): string {
    if c == ' ' then "+"
    else if MustEscape(c) || esc(c) then EscapeBytes(Utf8Bytes(c))
    else [c]
  }

  function EncodeKey(k: string, esc: char -> bool): string {
    if k == [] then [] else EncodeKeyChar(k[0], esc) + EncodeKey(k[1..], esc)
  }

  /** A key of plain characters is carried unchanged. */
  lemma {:induction false} EncodePlain(k: string, esc: char -> bool)
    requires forall i :: 0 <= i < |k| ==> k[i] != ' ' && !MustEscape(k[i]) && !esc(k[i])
    ensures EncodeKey(k, esc) == k
  {
    if k != [] {
      EncodePlain(k[1..], esc);
      assert k == [k[0]] + k[1..];
    }
  }

  /** The encoding works character by character. */
  lemma {:induction false} EncodeAppend(a: string, b: string, esc: char -> bool)
    ensures EncodeKey(a + b, esc) == EncodeKey(a, esc) + EncodeKey(b, esc)
  {
    if a == [] {
      assert a + b == b;
    } else {
      assert (a + b)[1..] == a[1..] + b;
      EncodeAppend(a[1..], b, esc);
    }
  }

  lemma EscapedByteOfEscape(b: nat, rest: string)
    requires b < 256
    ensures EscapedByte(EscapeByte(b) + rest) == Some(b)
  {
    var s := EscapeByte(b) + rest;
    assert s[0] == '%' && s[1] == HexDigit(b / 16) && s[2] == HexDigit(b % 16);
  }

  /** The payloads (low six bits) of a sequence of continuation bytes. */
  function LowBits(bs: seq<nat>): (p: seq<nat>)
    requires forall i :: 0 <= i < |bs| ==> 0x80 <= bs[i] < 0xC0
    ensures |p| == |bs| && forall i :: 0 <= i < |bs| ==> p[i] == bs[i] - 0x80
  {
    if bs == [] then [] else [bs[0] - 0x80] + LowBits(bs[1..])
  }

  lemma {:induction false} PayloadsOfEscapes(bs: seq<nat>, rest: string)
    requires forall i :: 0 <= i < |bs| ==> 0x80 <= bs[i] < 0xC0
    ensures Payloads(EscapeBytes(bs) + rest, |bs|) == Some(LowBits(bs))
  {
    if bs != [] {
      FirstEscape(bs, rest);
      PayloadsOfEscapes(bs[1..], rest);
    }
  }

  /** The first escape of an escaped byte string, and what follows it. */
  lemma FirstEscape(bs: seq<nat>, rest: string)
    requires bs != [] && forall i :: 0 <= i < |bs| ==> bs[i] < 256
    ensures EscapedByte(EscapeBytes(bs) + rest) == Some(bs[0])
    ensures (EscapeBytes(bs) + rest)[3..] == EscapeBytes(bs[1..]) + rest
  {
    var tail := EscapeBytes(bs[1..]) + rest;
    EscapeBytesHead(bs, rest);
    EscapedByteOfEscape(bs[0], tail);
  }

  lemma EscapeBytesHead(bs: seq<nat>, rest: string)
    requires bs != [] && forall i :: 0 <= i < |bs| ==> bs[i] < 256
    ensures EscapeBytes(bs) + rest == EscapeByte(bs[0]) + (EscapeBytes(bs[1..]) + rest)
  {
    var a, b := EscapeByte(bs[0]), EscapeBytes(bs[1..]);
    assert (a + b) + rest == a + (b + rest);
  }

  /** A well-formed escaped UTF-8 sequence decodes to the code point it encodes. */
  lemma DecodeEscapeOfSequence(bs: seq<nat>, rest: string)
    requires 2 <= |bs| <= 4 && bs[0] < 256 && SequenceLength(bs[0]) == |bs|
    requires forall i :: 1 <= i < |bs| ==> 0x80 <= bs[i] < 0xC0
    requires MinCodePoint(|bs|) <= CodePoint(bs[0], LowBits(bs[1..]))
    requires IsScalar(CodePoint(bs[0], LowBits(bs[1..])))
    ensures DecodeEscape(EscapeBytes(bs) + rest)
         == Some((CodePoint(bs[0], LowBits(bs[1..])) as char, 3 * |bs|))
  {
    FirstEscape(bs, rest);
    PayloadsOfEscapes(bs[1..], rest);
    DecodeEscapeUnfold(EscapeBytes(bs) + rest, bs[0], LowBits(bs[1..]));
  }

  lemma DecodeEscapeUnfold(s: string, b: nat, p: seq<nat>)
    requires EscapedByte(s) == Some(b) && 0x80 <= b
    requires 2 <= SequenceLength(b) && Payloads(s[3..], SequenceLength(b) - 1) == Some(p)
    requires MinCodePoint(SequenceLength(b)) <= CodePoint(b, p) && IsScalar(CodePoint(b, p))
    ensures DecodeEscape(s) == Some((CodePoint(b, p) as char, 3 * SequenceLength(b)))
  {
  }

  /** The UTF-8 encoding of `c` is a lead byte for its length followed by continuation bytes. */
  predicate WellFormedUtf8(c: char) {
    var bs := Utf8Bytes(c);
    && 2 <= |bs|
    && SequenceLength(bs[0]) == |bs|
    && (forall i :: 1 <= i < |bs| ==> 0x80 <= bs[i] < 0xC0)
    && CodePoint(bs[0], LowBits(bs[1..])) == c as int
  }

  lemma Utf8TwoBytes(c: char)
    requires 0x80 <= c as int < 0x800
    ensures WellFormedUtf8(c)
  {
    var cp := c as int;
    var bs := Utf8Bytes(c);
    assert bs == [0xC0 + cp / 64, 0x80 + cp % 64];
    assert LowBits(bs[1..]) == [cp % 64];
  }

  lemma Utf8ThreeBytes(c: char)
    requires 0x800 <= c as int < 0x10000
    ensures WellFormedUtf8(c)
  {
    var cp := c as int;
    var bs := Utf8Bytes(c);
    assert bs == [0xE0 + cp / 4096, 0x80 + (cp / 64) % 64, 0x80 + cp % 64];
    assert LowBits(bs[1..]) == [(cp / 64) % 64, cp % 64];
    assert (cp / 4096) * 64 + (cp / 64) % 64 == cp / 64;
  }

  lemma Utf8FourBytes(c: char)
    requires 0x10000 <= c as int
    ensures WellFormedUtf8(c)
  {
    var cp := c as int;
    var bs := Utf8Bytes(c);
    assert bs == [0xF0 + cp / 262144, 0x80 + (cp / 4096) % 64, 0x80 + (cp / 64) % 64, 0x80 + cp % 64];
    assert LowBits(bs[1..]) == [(cp / 4096) % 64, (cp / 64) % 64, cp % 64];
    assert (cp / 262144) * 64 + (cp / 4096) % 64 == cp / 4096;
    assert (cp / 4096) * 64 + (cp / 64) % 64 == cp / 64;
  }

  /** The escaped UTF-8 encoding of a non-ASCII character decodes back to it. */
  lemma DecodeEscapeOfUtf8(c: char, rest: string)
    requires c as int >= 0x80
    ensures DecodeEscape(EscapeBytes(Utf8Bytes(c)) + rest) == Some((c, 3 * |Utf8Bytes(c)|))
  {
    var cp := c as int;
    if cp < 0x800 {
      Utf8TwoBytes(c);
    } else if cp < 0x10000 {
      Utf8ThreeBytes(c);
    } else {
      Utf8FourBytes(c);
    }
    var bs := Utf8Bytes(c);
    assert MinCodePoint(|bs|) <= cp;
    DecodeEscapeOfSequence(bs, rest);
  }

  /** What `PlusToSpace` turns an encoded character into: the character itself for a space. */
  lemma PlusToSpaceEncodeKeyChar(c: char, esc: char -> bool)
    ensures PlusToSpace(EncodeKeyChar(c, esc)) == if c == ' ' then " " else EncodeKeyChar(c, esc)
  {
    if c != ' ' && (MustEscape(c) || esc(c)) {
      EscapesHaveNoPlus(Utf8Bytes(c));
    }
  }

  lemma {:induction false} EscapesHaveNoPlus(bs: seq<nat>)
    requires forall i :: 0 <= i < |bs| ==> bs[i] < 256
    ensures '+' !in EscapeBytes(bs)
  {
    if bs != [] {
      EscapesHaveNoPlus(bs[1..]);
      assert HexValue('+').None?;
    }
  }

  lemma PlusToSpaceConcat(a: string, b: string)
    ensures PlusToSpace(a + b) == PlusToSpace(a) + PlusToSpace(b)
  {
  }

  /** What decoding does with a string that starts with the decoded character `c`, `used` characters long. */
  predicate DecodesFirstTo(s: string, c: char, used: nat) {
    && 1 <= used <= |s|
    && PercentDecode(s) == match PercentDecode(s[used..]) case Some(t) => Some([c] + t) case None => None
  }

  lemma DecodePlainFirst(c: char, rest: string)
    requires c != '%'
    ensures DecodesFirstTo([c] + rest, c, 1)
  {
    var s := [c] + rest;
    assert s[0] == c && s[1..] == rest;
  }

  lemma DecodeEscapedFirst(s: string, c: char, used: nat)
    requires s != [] && s[0] == '%' && DecodeEscape(s) == Some((c, used))
    ensures DecodesFirstTo(s, c, used)
  {
  }

  /** Decoding one encoded (and space-normalised) character, then the rest. */
  lemma DecodeOneChar(c: char, esc: char -> bool, rest: string)
    ensures PercentDecode(PlusToSpace(EncodeKeyChar(c, esc)) + rest)
         == match PercentDecode(rest) case Some(t) => Some([c] + t) case None => None
  {
    PlusToSpaceEncodeKeyChar(c, esc);
    if c == ' ' {
      DecodePlainFirst(' ', rest);
    } else if MustEscape(c) || esc(c) {
      DecodeEscapedChar(c, rest);
    } else {
      DecodePlainFirst(c, rest);
    }
  }

  /** Any character, ASCII or not, written as its escaped UTF-8 bytes, decodes back to itself. */
  lemma DecodeEscapedChar(c: char, rest: string)
    ensures DecodesFirstTo(EscapeBytes(Utf8Bytes(c)) + rest, c, 3 * |Utf8Bytes(c)|)
    ensures (EscapeBytes(Utf8Bytes(c)) + rest)[3 * |Utf8Bytes(c)|..] == rest
  {
    var bs := Utf8Bytes(c);
    var s := EscapeBytes(bs) + rest;
    if c as int >= 0x80 {
      DecodeEscapeOfUtf8(c, rest);
    } else {
      EscapedByteOfEscape(c as int, rest);
      assert EscapeBytes(bs) == EscapeByte(c as int) + EscapeBytes([]);
    }
    EscapedLength(bs);
    assert s[3 * |bs|..] == rest;
    DecodeEscapedFirst(s, c, 3 * |bs|);
  }

  lemma {:induction false} EscapedLength(bs: seq<nat>)
    requires forall i :: 0 <= i < |bs| ==> bs[i] < 256
    ensures |EscapeBytes(bs)| == 3 * |bs|
    ensures bs != [] ==> EscapeBytes(bs)[0] == '%'
  {
    if bs != [] {
      EscapedLength(bs[1..]);
    }
  }

  /**
   * Round trip: every object key, form-encoded with any choice of extra
   * escaped characters, is decoded back to itself. In particular a space
   * written as `+` comes back as a space and `%2B` comes back as `+`.
   */
  lemma {:induction false} DecodeEncodeKey(k: string, esc: char -> bool)
    ensures DecodeKey(EncodeKey(k, esc)) == Some(k)
  {
    if k != [] {
      DecodeEncodeKey(k[1..], esc);
      PlusToSpaceConcat(EncodeKeyChar(k[0], esc), EncodeKey(k[1..], esc));
      DecodeOneChar(k[0], esc, PlusToSpace(EncodeKey(k[1..], esc)));
      assert [k[0]] + k[1..] == k;
    }
  }
}
