/** The scanning primitives of scan.h: whitespace, numbers, escapes and UTF-8. */
module Scan {
  import opened Bytes
  import opened Options
  import opened JsonValue

  predicate IsWs(c: byte) { c == SPACE || c == NEWLINE || c == RETURN || c == TAB }

  predicate IsDigit(c: byte) { ZERO <= c <= NINE }

  /** The characters that number tokens are made of. */
  predicate IsNumberChar(c: byte)
  {
    IsDigit(c) || c == MINUS || c == PLUS || c == DOT || c == LOWER_E || c == UPPER_E
  }

  function SkipWs(inp: Bytes, i: nat): (j: nat)
    requires i <= |inp|
    ensures i <= j <= |inp|
    ensures j < |inp| ==> !IsWs(inp[j])
    ensures i < |inp| && !IsWs(inp[i]) ==> j == i
    decreases |inp| - i
  {
    if i < |inp| && IsWs(inp[i]) then SkipWs(inp, i + 1) else i
  }

  function SkipDigits(inp: Bytes, i: nat, end: nat): (j: nat)
    requires i <= end <= |inp|
    ensures i <= j <= end
    ensures j < end ==> !IsDigit(inp[j])
    ensures i < end && IsDigit(inp[i]) ==> i < j
    decreases end - i
  {
    if i < end && IsDigit(inp[i]) then SkipDigits(inp, i + 1, end) else i
  }

  // The three parts of the number grammar: each gives the position after it, or None.
  function ScanInteger(inp: Bytes, i: nat, end: nat): (r: Option<nat>)
    requires i <= end <= |inp|
    ensures r.Some? ==> i < r.value <= end
  {
    var q := if i < end && inp[i] == MINUS then i + 1 else i;
    if q >= end then None
    else if inp[q] == ZERO then Some(q + 1)
    else if IsDigit(inp[q]) then Some(SkipDigits(inp, q, end))
    else None
  }

  function ScanFraction(inp: Bytes, q: nat, end: nat): (r: Option<nat>)
    requires q <= end <= |inp|
    ensures r.Some? ==> q <= r.value <= end
  {
    if q < end && inp[q] == DOT then
      if q + 1 >= end || !IsDigit(inp[q + 1]) then None
      else Some(SkipDigits(inp, q + 1, end))
    else Some(q)
  }

  function ScanExponent(inp: Bytes, q: nat, end: nat): (r: Option<nat>)
    requires q <= end <= |inp|
    ensures r.Some? ==> q <= r.value <= end
  {
    if q < end && (inp[q] == LOWER_E || inp[q] == UPPER_E) then
      var s := if q + 1 < end && (inp[q + 1] == PLUS || inp[q + 1] == MINUS) then q + 2 else q + 1;
      if s >= end || !IsDigit(inp[s]) then None
      else Some(SkipDigits(inp, s, end))
    else Some(q)
  }

  /** Validates the JSON number grammar on [i, end): the end of the number, or None. */
  function ScanNumber(inp: Bytes, i: nat, end: nat): (r: Option<nat>)
    requires i <= end <= |inp|
    ensures r.Some? ==> i < r.value <= end
  {
    var a := ScanInteger(inp, i, end);
    if a.None? then None else
    var b := ScanFraction(inp, a.value, end);
    if b.None? then None else
    ScanExponent(inp, b.value, end)
  }

  /** The whole text is one JSON number. */
  predicate IsNumberText(t: Bytes) { ScanNumber(t, 0, |t|) == Some(|t|) }

  predicate AllDigits(t: Bytes) { forall k :: 0 <= k < |t| ==> IsDigit(t[k]) }

  function DigitsValue(t: Bytes): (v: nat)
    requires AllDigits(t)
  {
    if t == [] then 0 else DigitsValue(t[..|t| - 1]) * 10 + (t[|t| - 1] - ZERO)
  }

  const EXACT: int := 0x20_0000_0000_0000

  /** The double a number token denotes. Plain integers of magnitude at most 2^53 are exact;
      any other token stands for itself. */
  function NumberValue(t: Bytes): Number
  {
    var neg := |t| > 0 && t[0] == MINUS;
    var digits := if neg then t[1..] else t;
    if digits != [] && AllDigits(digits) && DigitsValue(digits) <= EXACT then
      var v: int := DigitsValue(digits);
      Int(if neg then -v else v)
    else Float(t)
  }

  /** Value of one hexadecimal digit, or -1. */
  function HexDigit(c: byte): (d: int)
    ensures -1 <= d < 16
  {
    if ZERO <= c <= NINE then c - ZERO
    else if 0x61 <= c <= 0x66 then c - 0x61 + 10
    else if 0x41 <= c <= 0x46 then c - 0x41 + 10
    else -1
  }

  /** Value of the four hexadecimal digits at i, or -1. */
  function Hex4(inp: Bytes, i: nat): (v: int)
    requires i + 4 <= |inp|
    ensures -1 <= v < 0x10000
  {
    var a, b, c, d := HexDigit(inp[i]), HexDigit(inp[i + 1]), HexDigit(inp[i + 2]), HexDigit(inp[i + 3]);
    if a < 0 || b < 0 || c < 0 || d < 0 then -1
    else ((a * 16 + b) * 16 + c) * 16 + d
  }

  /** UTF-8 encoding of a code point; the source's shifts and masks written as division and remainder. */
  function Utf8Encode(cp: nat): (r: Bytes)
    requires cp < 0x110000
    ensures 1 <= |r| <= 4
  {
    if cp < 0x80 then [cp]
    else if cp < 0x800 then [0xC0 + cp / 64, 0x80 + cp % 64]
    else if cp < 0x10000 then [0xE0 + cp / 4096, 0x80 + cp / 64 % 64, 0x80 + cp % 64]
    else [0xF0 + cp / 262144, 0x80 + cp / 4096 % 64, 0x80 + cp / 64 % 64, 0x80 + cp % 64]
  }

  predicate IsHighSurrogate(u: int) { 0xD800 <= u <= 0xDBFF }

  predicate IsLowSurrogate(u: int) { 0xDC00 <= u <= 0xDFFF }

  function SurrogatePair(high: int, low: int): (cp: nat)
    requires IsHighSurrogate(high) && IsLowSurrogate(low)
    ensures 0x10000 <= cp < 0x110000
  {
    0x10000 + (high - 0xD800) * 1024 + (low - 0xDC00)
  }

  /** The byte a one-letter escape stands for. */
  function SimpleEscape(c: byte): Option<byte>
  {
    if c == QUOTE then Some(QUOTE)
    else if c == BACKSLASH then Some(BACKSLASH)
    else if c == SLASH then Some(SLASH)
    else if c == 0x62 then Some(0x08)
    else if c == 0x66 then Some(0x0C)
    else if c == 0x6E then Some(0x0A)
    else if c == 0x72 then Some(0x0D)
    else if c == 0x74 then Some(0x09)
    else None
  }

  datatype Escape = BadEscape | Escaped(out: Bytes, used: nat)

  /** Decodes the escape sequence whose backslash is at i, reading nothing at or after end. */
  function DecodeEscape(inp: Bytes, i: nat, end: nat): (r: Escape)
    requires i < end <= |inp|
    ensures r.Escaped? ==> 2 <= r.used && i + r.used <= end && |r.out| < r.used
  {
    if end - i < 2 then BadEscape
    else if inp[i + 1] != LOWER_U then
      var s := SimpleEscape(inp[i + 1]);
      if s.None? then BadEscape else Escaped([s.value], 2)
    else if end - i < 6 then BadEscape
    else DecodeUnicode(inp, i, end)
  }

  function DecodeUnicode(inp: Bytes, i: nat, end: nat): (r: Escape)
    requires i + 6 <= end <= |inp|
    ensures r.Escaped? ==> 2 <= r.used && i + r.used <= end && |r.out| < r.used
  {
    var u := Hex4(inp, i + 2);
    if u < 0 then BadEscape
    else if IsHighSurrogate(u) then
      if end - i < 12 || inp[i + 6] != BACKSLASH || inp[i + 7] != LOWER_U then BadEscape
      else
        var lo := Hex4(inp, i + 8);
        if !IsLowSurrogate(lo) then BadEscape
        else Escaped(Utf8Encode(SurrogatePair(u, lo)), 12)
    else if IsLowSurrogate(u) then BadEscape
    else Escaped(Utf8Encode(u), 6)
  }

  /** What a lead byte promises: how many continuation bytes follow and the range of the first one. */
  datatype Lead = BadLead | Lead(need: nat, lo: byte, hi: byte)

  function LeadOf(c: byte): (r: Lead)
    requires c >= 0x80
    ensures r.Lead? ==> 1 <= r.need <= 3 && 0x80 <= r.lo && r.hi <= 0xBF
  {
    if 0xC2 <= c <= 0xDF then Lead(1, 0x80, 0xBF)
    else if c == 0xE0 then Lead(2, 0xA0, 0xBF)
    else if 0xE1 <= c <= 0xEC then Lead(2, 0x80, 0xBF)
    else if c == 0xED then Lead(2, 0x80, 0x9F)
    else if 0xEE <= c <= 0xEF then Lead(2, 0x80, 0xBF)
    else if c == 0xF0 then Lead(3, 0x90, 0xBF)
    else if 0xF1 <= c <= 0xF3 then Lead(3, 0x80, 0xBF)
    else if c == 0xF4 then Lead(3, 0x80, 0x8F)
    else BadLead
  }

  predicate IsContinuation(c: byte) { 0x80 <= c <= 0xBF }

  /** Length of the well-formed UTF-8 sequence at i inside [i, end), or 0. */
  function Utf8Length(inp: Bytes, i: nat, end: nat): (len: nat)
    requires i < end <= |inp|
    ensures i + len <= end && len <= 4
    ensures forall k :: i < k < i + len ==> IsContinuation(inp[k])
    ensures len > 1 ==> inp[i] >= 0x80
  {
    if inp[i] < 0x80 then 1 else
    var l := LeadOf(inp[i]);
    if l.BadLead? || i + l.need >= end then 0
    else if inp[i + 1] < l.lo || inp[i + 1] > l.hi then 0
    else if l.need >= 2 && !IsContinuation(inp[i + 2]) then 0
    else if l.need >= 3 && !IsContinuation(inp[i + 3]) then 0
    else l.need + 1
  }
}
