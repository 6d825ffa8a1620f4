/**
 * JavaScript's `encodeURIComponent` and `decodeURIComponent` (section 19.2.6
 * of ECMA-262), over strings of Unicode scalar values. The leaderboard's
 * "View Details" link encodes a participant's email with the first, and the
 * participant page decodes its `email` parameter with the second.
 */
module Uri {
  import opened Wrappers

  /** What `decodeURIComponent` throws: URIError "URI malformed". */
  datatype UriError = UriMalformed

  /** The characters `encodeURIComponent` leaves as they are. */
  predicate IsUnreserved(c: char) {
    || ('A' <= c <= 'Z') || ('a' <= c <= 'z') || ('0' <= c <= '9')
    || c == '-' || c == '_' || c == '.' || c == '!' || c == '~'
    || c == '*' || c == '\'' || c == '(' || c == ')'
  }

  predicate IsByte(b: int) {
    0 <= b < 256
  }

  predicate IsScalar(cp: int) {
    0 <= cp < 0xD800 || 0xE000 <= cp <= 0x10FFFF
  }

  /** UTF-8 encoding of a Unicode scalar value. */
  function Utf8(cp: int): (bs: seq<int>)
    requires IsScalar(cp)
    ensures 1 <= |bs| <= 4 && forall i :: 0 <= i < |bs| ==> IsByte(bs[i])
  {
    if cp < 0x80 then [cp]
    else if cp < 0x800 then [0xC0 + cp / 64, 0x80 + cp % 64]
    else if cp < 0x10000 then [0xE0 + cp / 4096, 0x80 + cp / 64 % 64, 0x80 + cp % 64]
    else [0xF0 + cp / 262144, 0x80 + cp / 4096 % 64, 0x80 + cp / 64 % 64, 0x80 + cp % 64]
  }

  function HexDigit(d: int): char
    requires 0 <= d < 16
  {
    if d < 10 then ('0' as int + d) as char else ('A' as int + d - 10) as char
  }

  /** Each byte as %XY with upper-case hexadecimal digits. */
  function Escape(bs: seq<int>): (e: string)
    requires forall i :: 0 <= i < |bs| ==> IsByte(bs[i])
    ensures |e| == 3 * |bs|
  {
    if bs == [] then []
    else
      var b := bs[0];
      assert IsByte(b);
      ['%', HexDigit(b / 16), HexDigit(b % 16)] + Escape(bs[1..])
  }

  function EncodeChar(c: char): string {
    if IsUnreserved(c) then [c] else Escape(Utf8(c as int))
  }

  /** `encodeURIComponent(s)`. */
  function EncodeURIComponent(s: string): string {
    if s == [] then [] else EncodeChar(s[0]) + EncodeURIComponent(s[1..])
  }

  function HexValue(c: char): Option<int> {
    if '0' <= c <= '9' then Some(c as int - '0' as int)
    else if 'a' <= c <= 'f' then Some(c as int - 'a' as int + 10)
    else if 'A' <= c <= 'F' then Some(c as int - 'A' as int + 10)
    else None
  }

  /** The byte written as %XY at the start of s, when s starts with one. */
  function EscapedByte(s: string): (r: Option<int>)
    ensures r.Some? ==> |s| >= 3 && IsByte(r.value)
  {
    if |s| >= 3 && s[0] == '%' && HexValue(s[1]).Some? && HexValue(s[2]).Some? then
      Some(16 * HexValue(s[1]).value + HexValue(s[2]).value)
    else None
  }

  /** How many bytes the UTF-8 sequence led by b has; 0 when b cannot lead one. */
  function SequenceLength(b: int): nat {
    if b < 0x80 then 1
    else if 0xC0 <= b < 0xE0 then 2
    else if 0xE0 <= b < 0xF0 then 3
    else if 0xF0 <= b < 0xF8 then 4
    else 0
  }

  predicate IsContinuation(b: int) {
    0x80 <= b < 0xC0
  }

  /** k escaped continuation bytes at the start of s. */
  function ReadContinuations(s: string, k: nat): (r: Option<seq<int>>)
    ensures r.Some? ==> |r.value| == k && 3 * k <= |s|
    ensures r.Some? ==> forall i :: 0 <= i < k ==> IsContinuation(r.value[i])
    decreases k
  {
    if k == 0 then Some([])
    else match EscapedByte(s)
      case None => None
      case Some(b) =>
        if !IsContinuation(b) then None
        else match ReadContinuations(s[3..], k - 1)
          case None => None
          case Some(rest) => Some([b] + rest)
  }

  /** The code point a lead byte and its continuation bytes spell. */
  function CodePoint(lead: int, cont: seq<int>): int
    requires 1 <= |cont| <= 3
  {
    if |cont| == 1 then (lead - 0xC0) * 64 + (cont[0] - 0x80)
    else if |cont| == 2 then (lead - 0xE0) * 4096 + (cont[0] - 0x80) * 64 + (cont[1] - 0x80)
    else (lead - 0xF0) * 262144 + (cont[0] - 0x80) * 4096 + (cont[1] - 0x80) * 64 + (cont[2] - 0x80)
  }

  /** The sequence of n bytes is the shortest encoding of a scalar value. */
  predicate IsWellFormed(n: nat, cp: int) {
    if n == 2 then 0x80 <= cp < 0x800
    else if n == 3 then 0x800 <= cp < 0x10000 && !(0xD800 <= cp < 0xE000)
    else n == 4 && 0x10000 <= cp <= 0x10FFFF
  }

  function Prepend(c: char, r: Result<string, UriError>): Result<string, UriError> {
    match r
    case Success(t) => Success([c] + t)
    case Failure(e) => Failure(e)
  }

  /** `decodeURIComponent(s)`: every %XY escape, alone for an ASCII byte or
      in a run that forms one well-formed UTF-8 sequence, becomes its
      character; anything else after a % is an error. */
  function DecodeURIComponent(s: string): Result<string, UriError>
    decreases |s|
  {
    if s == [] then Success([])
    else if s[0] != '%' then Prepend(s[0], DecodeURIComponent(s[1..]))
    else match EscapedByte(s)
      case None => Failure(UriMalformed)
      case Some(b) =>
        var n := SequenceLength(b);
        if n == 0 then Failure(UriMalformed)
        else if n == 1 then Prepend(b as char, DecodeURIComponent(s[3..]))
        else match ReadContinuations(s[3..], n - 1)
          case None => Failure(UriMalformed)
          case Some(cont) =>
            var cp := CodePoint(b, cont);
            if IsWellFormed(n, cp) then Prepend(cp as char, DecodeURIComponent(s[3 * n..]))
            else Failure(UriMalformed)
  }

  // ---------------------------------------------------------------------
  // decoding undoes encoding

  lemma {:induction false} HexRoundTrip(d: int)
    requires 0 <= d < 16
    ensures HexValue(HexDigit(d)) == Some(d)
  {
  }

  lemma {:induction false} Assoc(a: string, b: string, c: string)
    ensures (a + b) + c == a + (b + c)
  {
  }

  lemma {:induction false} EscapedByteOfDigits(hi: int, lo: int, rest: string)
    requires 0 <= hi < 16 && 0 <= lo < 16
    ensures EscapedByte(['%', HexDigit(hi), HexDigit(lo)] + rest) == Some(16 * hi + lo)
  {
    HexRoundTrip(hi);
    HexRoundTrip(lo);
    var s := ['%', HexDigit(hi), HexDigit(lo)] + rest;
    assert s[0] == '%' && s[1] == HexDigit(hi) && s[2] == HexDigit(lo);
  }

  lemma {:induction false} EscapedByteOfEscape(bs: seq<int>, rest: string)
    requires bs != [] && forall i :: 0 <= i < |bs| ==> IsByte(bs[i])
    ensures EscapedByte(Escape(bs) + rest) == Some(bs[0])
    ensures (Escape(bs) + rest)[3..] == Escape(bs[1..]) + rest
  {
    var b := bs[0];
    assert IsByte(b);
    var hi, lo := b / 16, b % 16;
    var tail := Escape(bs[1..]) + rest;
    var head := ['%', HexDigit(hi), HexDigit(lo)];
    var e := Escape(bs);
    assert e == head + Escape(bs[1..]);
    Assoc(head, Escape(bs[1..]), rest);
    EscapedByteOfDigits(hi, lo, tail);
    assert 16 * hi + lo == b;
  }

  lemma {:induction false} ReadContinuationsOfEscape(bs: seq<int>, rest: string)
    requires forall i :: 0 <= i < |bs| ==> IsByte(bs[i]) && IsContinuation(bs[i])
    ensures ReadContinuations(Escape(bs) + rest, |bs|) == Some(bs)
  {
    if bs != [] {
      EscapedByteOfEscape(bs, rest);
      ReadContinuationsOfEscape(bs[1..], rest);
      assert [bs[0]] + bs[1..] == bs;
    }
  }

  lemma {:induction false} Utf8TwoBytes(cp: int)
    requires 0x80 <= cp < 0x800
    ensures var bs := Utf8(cp);
      |bs| == 2 && SequenceLength(bs[0]) == 2 && IsContinuation(bs[1])
      && CodePoint(bs[0], bs[1..]) == cp
  {
    var q, r := cp / 64, cp % 64;
    assert cp == 64 * q + r && 2 <= q < 32;
    assert Utf8(cp) == [0xC0 + q, 0x80 + r];
  }

  lemma {:induction false} Utf8ThreeBytes(cp: int)
    requires 0x800 <= cp < 0x10000 && !(0xD800 <= cp < 0xE000)
    ensures var bs := Utf8(cp);
      |bs| == 3 && SequenceLength(bs[0]) == 3 && IsContinuation(bs[1]) && IsContinuation(bs[2])
      && CodePoint(bs[0], bs[1..]) == cp
  {
    var q1, r1 := cp / 64, cp % 64;
    var q2, r2 := q1 / 64, q1 % 64;
    assert cp == 64 * q1 + r1 && q1 == 64 * q2 + r2;
    assert cp / 4096 == q2;
    assert q2 < 16;
    assert Utf8(cp) == [0xE0 + q2, 0x80 + r2, 0x80 + r1];
  }

  lemma {:induction false} Utf8FourBytes(cp: int)
    requires 0x10000 <= cp <= 0x10FFFF
    ensures var bs := Utf8(cp);
      |bs| == 4 && SequenceLength(bs[0]) == 4
      && IsContinuation(bs[1]) && IsContinuation(bs[2]) && IsContinuation(bs[3])
      && CodePoint(bs[0], bs[1..]) == cp
  {
    var q1, r1 := cp / 64, cp % 64;
    var q2, r2 := q1 / 64, q1 % 64;
    var q3, r3 := q2 / 64, q2 % 64;
    assert cp == 64 * q1 + r1 && q1 == 64 * q2 + r2 && q2 == 64 * q3 + r3;
    assert cp / 4096 == q2 && cp / 262144 == q3;
    assert q3 < 8;
    assert Utf8(cp) == [0xF0 + q3, 0x80 + r3, 0x80 + r2, 0x80 + r1];
  }

  /** The UTF-8 bytes of a scalar value are read back as that value. */
  lemma {:induction false} Utf8Decodes(cp: int)
    requires IsScalar(cp) && cp >= 0x80
    ensures var bs := Utf8(cp);
      && 2 <= |bs| && SequenceLength(bs[0]) == |bs|
      && (forall i :: 1 <= i < |bs| ==> IsContinuation(bs[i]))
      && CodePoint(bs[0], bs[1..]) == cp
      && IsWellFormed(|bs|, cp)
  {
    if cp < 0x800 {
      Utf8TwoBytes(cp);
    } else if cp < 0x10000 {
      Utf8ThreeBytes(cp);
    } else {
      Utf8FourBytes(cp);
    }
  }

  /** A character encoded as several escapes is decoded from all of them. */
  lemma {:induction false} DecodeMultiByteChar(c: char, rest: string)
    requires !IsUnreserved(c) && c as int >= 0x80
    ensures DecodeURIComponent(EncodeChar(c) + rest) == Prepend(c, DecodeURIComponent(rest))
  {
    var cp := c as int;
    var bs := Utf8(cp);
    var s := Escape(bs) + rest;
    EscapedByteOfEscape(bs, rest);
    Utf8Decodes(cp);
    ReadContinuationsOfEscape(bs[1..], rest);
    assert s[3 * |bs|..] == rest;
  }

  lemma {:induction false} DecodeEncodedChar(c: char, rest: string)
    ensures DecodeURIComponent(EncodeChar(c) + rest) == Prepend(c, DecodeURIComponent(rest))
  {
    var s := EncodeChar(c) + rest;
    if IsUnreserved(c) {
      assert s[1..] == rest;
    } else if c as int < 0x80 {
      EscapedByteOfEscape(Utf8(c as int), rest);
      assert s[3..] == rest;
    } else {
      DecodeMultiByteChar(c, rest);
    }
  }

  /** decodeURIComponent(encodeURIComponent(s)) gives s back. */
  lemma {:induction false} DecodeEncode(s: string)
    ensures DecodeURIComponent(EncodeURIComponent(s)) == Success(s)
  {
    if s != [] {
      DecodeEncode(s[1..]);
      DecodeEncodedChar(s[0], EncodeURIComponent(s[1..]));
      assert [s[0]] + s[1..] == s;
    }
  }

  /** encodeURIComponent leaves no % of the input unescaped, and decoding
      text without a % changes nothing. */
  lemma {:induction false} DecodeWithoutPercent(s: string)
    requires '%' !in s
    ensures DecodeURIComponent(s) == Success(s)
  {
    if s != [] {
      DecodeWithoutPercent(s[1..]);
      assert [s[0]] + s[1..] == s;
    }
  }

  lemma {:induction false} EscapeAlphabet(bs: seq<int>)
    requires forall i :: 0 <= i < |bs| ==> IsByte(bs[i])
    ensures forall c :: c in Escape(bs) ==> IsUnreserved(c) || c == '%'
  {
    if bs != [] {
      EscapeAlphabet(bs[1..]);
    }
  }

  /** Encoded text is made of unreserved characters and %, so it holds no
      `&`, `=`, `#`, `+` or space that could end a query parameter. */
  lemma {:induction false} EncodingAlphabet(s: string)
    ensures forall c :: c in EncodeURIComponent(s) ==> IsUnreserved(c) || c == '%'
  {
    if s != [] {
      EncodingAlphabet(s[1..]);
      if !IsUnreserved(s[0]) {
        EscapeAlphabet(Utf8(s[0] as int));
      }
    }
  }

  // ---------------------------------------------------------------------
  // decoding text that was not produced by encodeURIComponent

  /** A prefix without % decodes to itself, in front of whatever the rest
      decodes to; when the rest is malformed so is the whole. */
  lemma {:induction false} DecodePlainPrefix(a: string, s: string)
    requires '%' !in a
    ensures DecodeURIComponent(s).Success? ==>
      DecodeURIComponent(a + s) == Success(a + DecodeURIComponent(s).value)
    ensures DecodeURIComponent(s).Failure? ==> DecodeURIComponent(a + s).Failure?
  {
    if a == [] {
      assert a + s == s;
      if DecodeURIComponent(s).Success? {
        assert a + DecodeURIComponent(s).value == DecodeURIComponent(s).value;
      }
    } else {
      DecodePlainPrefix(a[1..], s);
      assert a[0] in a;
      assert (a + s)[0] == a[0];
      assert (a + s)[1..] == a[1..] + s;
      if DecodeURIComponent(s).Success? {
        var v := DecodeURIComponent(s).value;
        assert [a[0]] + (a[1..] + v) == a + v;
      }
    }
  }

  /** One escape of an ASCII byte decodes to that character. */
  lemma {:induction false} DecodeAsciiEscape(hi: int, lo: int, rest: string)
    requires 0 <= hi < 8 && 0 <= lo < 16
    ensures DecodeURIComponent(['%', HexDigit(hi), HexDigit(lo)] + rest)
      == Prepend((16 * hi + lo) as char, DecodeURIComponent(rest))
  {
    var s := ['%', HexDigit(hi), HexDigit(lo)] + rest;
    EscapedByteOfDigits(hi, lo, rest);
    assert s[3..] == rest;
  }

  /** A % not followed by two hexadecimal digits is malformed. */
  lemma {:induction false} DecodeBadEscape(s: string)
    requires s != [] && s[0] == '%'
    requires |s| < 3 || HexValue(s[1]).None? || HexValue(s[2]).None?
    ensures DecodeURIComponent(s) == Failure(UriMalformed)
  {
  }
}
