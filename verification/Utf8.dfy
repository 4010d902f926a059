/** UTF-8 validity: the validator's answer against the grammar of section 4 of RFC 3629. */
module Utf8 {
  import opened Bytes
  import opened Scan

  predicate Tail(c: byte) { 0x80 <= c <= 0xBF }

  /** The UTF8-char rule: UTF8-1, UTF8-2, UTF8-3 and UTF8-4, alternative by alternative. */
  predicate IsUtf8Char(s: Bytes)
  {
    || (|s| == 1 && s[0] <= 0x7F)
    || (|s| == 2 && 0xC2 <= s[0] <= 0xDF && Tail(s[1]))
    || (|s| == 3 && s[0] == 0xE0 && 0xA0 <= s[1] <= 0xBF && Tail(s[2]))
    || (|s| == 3 && 0xE1 <= s[0] <= 0xEC && Tail(s[1]) && Tail(s[2]))
    || (|s| == 3 && s[0] == 0xED && 0x80 <= s[1] <= 0x9F && Tail(s[2]))
    || (|s| == 3 && 0xEE <= s[0] <= 0xEF && Tail(s[1]) && Tail(s[2]))
    || (|s| == 4 && s[0] == 0xF0 && 0x90 <= s[1] <= 0xBF && Tail(s[2]) && Tail(s[3]))
    || (|s| == 4 && 0xF1 <= s[0] <= 0xF3 && Tail(s[1]) && Tail(s[2]) && Tail(s[3]))
    || (|s| == 4 && s[0] == 0xF4 && 0x80 <= s[1] <= 0x8F && Tail(s[2]) && Tail(s[3]))
  }

  /** The UTF8-octets rule: a concatenation of characters. */
  ghost predicate IsUtf8(s: Bytes)
    decreases |s|
  {
    s == [] || exists len :: 1 <= len <= |s| && IsUtf8Char(s[..len]) && IsUtf8(s[len..])
  }

  /** The start of the first ill-formed sequence of [i, end), or end. */
  function InvalidAt(inp: Bytes, i: nat, end: nat): (r: nat)
    requires i <= end <= |inp|
    ensures i <= r <= end
    decreases end - i
  {
    if i == end then end
    else if Utf8Length(inp, i, end) == 0 then i
    else InvalidAt(inp, i + Utf8Length(inp, i, end), end)
  }

  /** The length the validator finds at i is that of the only character of the grammar there. */
  lemma LengthIsChar(inp: Bytes, i: nat, end: nat, len: nat)
    requires i < end <= |inp| && 1 <= len && i + len <= end
    ensures Utf8Length(inp, i, end) == len <==> IsUtf8Char(inp[i..i + len])
  {
    var s := inp[i..i + len];
    assert forall k :: 0 <= k < len ==> s[k] == inp[i + k];
  }

  lemma Drop(inp: Bytes, i: nat, end: nat, len: nat)
    requires i + len <= end <= |inp|
    ensures inp[i..end][..len] == inp[i..i + len] && inp[i..end][len..] == inp[i + len..end]
  {
  }

  /** The validator reaches the end exactly on the strings of the grammar. */
  lemma ValidIffGrammar(inp: Bytes, i: nat, end: nat)
    requires i <= end <= |inp|
    ensures InvalidAt(inp, i, end) == end <==> IsUtf8(inp[i..end])
  {
    if InvalidAt(inp, i, end) == end { ValidHasGrammar(inp, i, end); }
    if IsUtf8(inp[i..end]) { GrammarIsValid(inp, i, end); }
  }

  lemma {:induction false} ValidHasGrammar(inp: Bytes, i: nat, end: nat)
    requires i <= end <= |inp| && InvalidAt(inp, i, end) == end
    ensures IsUtf8(inp[i..end])
    decreases end - i
  {
    hide Utf8Length, IsUtf8Char;
    if i < end {
      var n := Utf8Length(inp, i, end);
      LengthIsChar(inp, i, end, n);
      Drop(inp, i, end, n);
      ValidHasGrammar(inp, i + n, end);
      assert 1 <= n <= |inp[i..end]| && IsUtf8Char(inp[i..end][..n]) && IsUtf8(inp[i..end][n..]);
    }
  }

  lemma {:induction false} GrammarIsValid(inp: Bytes, i: nat, end: nat)
    requires i <= end <= |inp| && IsUtf8(inp[i..end])
    ensures InvalidAt(inp, i, end) == end
    decreases end - i
  {
    hide Utf8Length, IsUtf8Char;
    if i < end {
      var s := inp[i..end];
      var len :| 1 <= len <= |s| && IsUtf8Char(s[..len]) && IsUtf8(s[len..]);
      Drop(inp, i, end, len);
      LengthIsChar(inp, i, end, len);
      GrammarIsValid(inp, i + len, end);
    }
  }

  /** Otherwise it points at the first ill-formed sequence: everything before is well formed and no
      character of the grammar starts there. */
  lemma {:induction false} InvalidIsFirst(inp: Bytes, i: nat, end: nat)
    requires i <= end <= |inp| && InvalidAt(inp, i, end) < end
    ensures var r := InvalidAt(inp, i, end);
            IsUtf8(inp[i..r]) && forall e :: r < e <= end ==> !IsUtf8Char(inp[r..e])
    decreases end - i
  {
    var r := InvalidAt(inp, i, end);
    var n := Utf8Length(inp, i, end);
    if n == 0 {
      forall e | r < e <= end ensures !IsUtf8Char(inp[r..e]) {
        LengthIsChar(inp, i, end, e - r);
      }
    } else {
      InvalidIsFirst(inp, i + n, end);
      LengthIsChar(inp, i, end, n);
      Drop(inp, i, r, n);
      assert IsUtf8(inp[i..r]);
    }
  }

  // --- Code points ---

  /** The decoder of the serializer: the code point at i and its length, or length 0.
      A read past the end of the string finds its terminating NUL. */
  function At(s: Bytes, i: nat): byte { if i < |s| then s[i] else 0 }

  datatype Decoded = Decoded(cp: nat, len: nat)

  function Utf8Decode(s: Bytes, i: nat): (r: Decoded)
    requires i < |s|
    ensures r.len > 0 ==> r.cp < 0x110000 && !(0xD800 <= r.cp <= 0xDFFF) && i + r.len <= |s|
  {
    var c, c1, c2, c3 := s[i], At(s, i + 1), At(s, i + 2), At(s, i + 3);
    if c < 0x80 then Decoded(c, 1)
    else if 0xC2 <= c <= 0xDF && IsContinuation(c1) then Decoded(c % 32 * 64 + c1 % 64, 2)
    else if 0xE0 <= c <= 0xEF && IsContinuation(c1) && IsContinuation(c2) then
      var cp := c % 16 * 4096 + c1 % 64 * 64 + c2 % 64;
      if cp < 0x800 || 0xD800 <= cp <= 0xDFFF then Decoded(0, 0) else Decoded(cp, 3)
    else if 0xF0 <= c <= 0xF4 && IsContinuation(c1) && IsContinuation(c2) && IsContinuation(c3) then
      var cp := c % 8 * 262144 + c1 % 64 * 4096 + c2 % 64 * 64 + c3 % 64;
      if cp < 0x10000 || cp > 0x10FFFF then Decoded(0, 0) else Decoded(cp, 4)
    else Decoded(0, 0)
  }

  /** Decoding an encoded code point gives it back, whatever follows. */
  lemma DecodeEncode(cp: nat, rest: Bytes)
    requires cp < 0x110000 && !(0xD800 <= cp <= 0xDFFF)
    ensures Utf8Decode(Utf8Encode(cp) + rest, 0) == Decoded(cp, |Utf8Encode(cp)|)
  {
    hide Utf8Decode;
    var s := Utf8Encode(cp) + rest;
    if cp < 0x80 {
      Decodes1(s, cp);
    } else {
      Digits64(cp);
      if cp < 0x800 {
        Decodes2(s, cp / 64, cp % 64);
      } else if cp < 0x10000 {
        Decodes3(s, cp / 4096, cp / 64 % 64, cp % 64);
      } else {
        Decodes4(s, cp / 262144, cp / 4096 % 64, cp / 64 % 64, cp % 64);
      }
    }
  }

  lemma Decodes1(s: Bytes, a: nat)
    requires |s| >= 1 && a < 0x80 && s[0] == a
    ensures Utf8Decode(s, 0) == Decoded(a, 1)
  {
  }

  lemma Decodes2(s: Bytes, a: nat, b: nat)
    requires |s| >= 2 && 2 <= a < 32 && b < 64 && s[0] == 0xC0 + a && s[1] == 0x80 + b
    ensures Utf8Decode(s, 0) == Decoded(a * 64 + b, 2)
  {
    TwoBytes(a, b);
  }

  lemma Decodes3(s: Bytes, a: nat, b: nat, c: nat)
    requires |s| >= 3 && a < 16 && b < 64 && c < 64
    requires s[0] == 0xE0 + a && s[1] == 0x80 + b && s[2] == 0x80 + c
    requires var cp := a * 4096 + b * 64 + c; cp >= 0x800 && !(0xD800 <= cp <= 0xDFFF)
    ensures Utf8Decode(s, 0) == Decoded(a * 4096 + b * 64 + c, 3)
  {
    ThreeBytes(a, b, c);
  }

  lemma Decodes4(s: Bytes, a: nat, b: nat, c: nat, d: nat)
    requires |s| >= 4 && a < 8 && b < 64 && c < 64 && d < 64
    requires s[0] == 0xF0 + a && s[1] == 0x80 + b && s[2] == 0x80 + c && s[3] == 0x80 + d
    requires 0x10000 <= a * 262144 + b * 4096 + c * 64 + d <= 0x10FFFF
    ensures Utf8Decode(s, 0) == Decoded(a * 262144 + b * 4096 + c * 64 + d, 4)
  {
    FourBytes(a, b, c, d);
  }

  /** A code point is rebuilt from its groups of six bits. */
  lemma Digits64(cp: nat)
    ensures cp == cp / 64 * 64 + cp % 64
    ensures cp == cp / 4096 * 4096 + cp / 64 % 64 * 64 + cp % 64
    ensures cp == cp / 262144 * 262144 + cp / 4096 % 64 * 4096 + cp / 64 % 64 * 64 + cp % 64
  {
    assert cp / 4096 == cp / 64 / 64;
    assert cp / 262144 == cp / 4096 / 64;
  }

  lemma TwoBytes(a: nat, b: nat)
    requires a < 32 && b < 64
    ensures (0xC0 + a) % 32 == a && (0x80 + b) % 64 == b
    ensures (a * 64 + b) / 64 == a && (a * 64 + b) % 64 == b
  {
  }

  lemma ThreeBytes(a: nat, b: nat, c: nat)
    requires a < 16 && b < 64 && c < 64
    ensures (0xE0 + a) % 16 == a && (0x80 + b) % 64 == b && (0x80 + c) % 64 == c
    ensures var cp := a * 4096 + b * 64 + c; cp / 4096 == a && cp / 64 % 64 == b && cp % 64 == c
  {
    assert (a * 4096 + b * 64 + c) / 64 == a * 64 + b;
  }

  lemma FourBytes(a: nat, b: nat, c: nat, d: nat)
    requires a < 8 && b < 64 && c < 64 && d < 64
    ensures (0xF0 + a) % 8 == a && (0x80 + b) % 64 == b && (0x80 + c) % 64 == c && (0x80 + d) % 64 == d
    ensures var cp := a * 262144 + b * 4096 + c * 64 + d;
            cp / 262144 == a && cp / 4096 % 64 == b && cp / 64 % 64 == c && cp % 64 == d
  {
    var cp := a * 262144 + b * 4096 + c * 64 + d;
    assert cp / 64 == a * 4096 + b * 64 + c;
    assert cp / 4096 == a * 64 + b;
  }

  /** The decoder takes exactly the sequences the validator accepts. */
  lemma DecodedLength(s: Bytes, i: nat)
    requires i < |s|
    ensures Utf8Length(s, i, |s|) == Utf8Decode(s, i).len
  {
    var c := s[i];
    if 0xE0 <= c <= 0xEF {
      ThreeBytes(c - 0xE0, At(s, i + 1) % 64, At(s, i + 2) % 64);
    } else if 0xF0 <= c <= 0xF4 {
      FourBytes(c - 0xF0, At(s, i + 1) % 64, At(s, i + 2) % 64, At(s, i + 3) % 64);
    }
  }

  /** Encoding a decoded character gives its bytes back. */
  lemma EncodeDecode(s: Bytes, i: nat)
    requires i < |s| && Utf8Decode(s, i).len > 0
    ensures Utf8Encode(Utf8Decode(s, i).cp) == s[i..i + Utf8Decode(s, i).len]
  {
    hide Utf8Encode;
    var d := Utf8Decode(s, i);
    var c, c1, c2, c3 := s[i], At(s, i + 1), At(s, i + 2), At(s, i + 3);
    if c < 0x80 {
      Encodes1(c);
    } else if c <= 0xDF {
      var x: nat, y: nat := c - 0xC0, c1 - 0x80;
      assert c % 32 == x && c1 % 64 == y;
      assert d.cp == x * 64 + y;
      Encodes2(x, y);
    } else if c <= 0xEF {
      var x: nat, y: nat, z: nat := c - 0xE0, c1 - 0x80, c2 - 0x80;
      assert c % 16 == x && c1 % 64 == y && c2 % 64 == z;
      assert d.cp == x * 4096 + y * 64 + z;
      Encodes3(x, y, z);
    } else {
      EncodeDecode4(s, i);
    }
  }

  lemma EncodeDecode4(s: Bytes, i: nat)
    requires i < |s| && s[i] > 0xEF && Utf8Decode(s, i).len > 0
    ensures Utf8Encode(Utf8Decode(s, i).cp) == s[i..i + Utf8Decode(s, i).len]
  {
    hide Utf8Encode;
    var x: nat, y: nat := s[i] - 0xF0, At(s, i + 1) - 0x80;
    var z: nat, w: nat := At(s, i + 2) - 0x80, At(s, i + 3) - 0x80;
    assert s[i] % 8 == x && At(s, i + 1) % 64 == y && At(s, i + 2) % 64 == z && At(s, i + 3) % 64 == w;
    assert Utf8Decode(s, i).cp == x * 262144 + y * 4096 + z * 64 + w;
    Encodes4(x, y, z, w);
  }

  lemma Encodes1(a: nat)
    requires a < 0x80
    ensures Utf8Encode(a) == [a]
  {
  }

  lemma Encodes2(a: nat, b: nat)
    requires 2 <= a < 32 && b < 64
    ensures Utf8Encode(a * 64 + b) == [0xC0 + a, 0x80 + b]
  {
    TwoBytes(a, b);
  }

  lemma Encodes3(a: nat, b: nat, c: nat)
    requires a < 16 && b < 64 && c < 64 && a * 4096 + b * 64 + c >= 0x800
    ensures Utf8Encode(a * 4096 + b * 64 + c) == [0xE0 + a, 0x80 + b, 0x80 + c]
  {
    ThreeBytes(a, b, c);
  }

  lemma Encodes4(a: nat, b: nat, c: nat, d: nat)
    requires a < 8 && b < 64 && c < 64 && d < 64 && 0x10000 <= a * 262144 + b * 4096 + c * 64 + d <= 0x10FFFF
    ensures Utf8Encode(a * 262144 + b * 4096 + c * 64 + d) == [0xF0 + a, 0x80 + b, 0x80 + c, 0x80 + d]
  {
    FourBytes(a, b, c, d);
  }
}
