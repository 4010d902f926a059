/** Bytes and the ASCII characters the JSON code compares against. */
module Bytes {

  type byte = b: nat | b < 256
  type Bytes = seq<byte>

  const TAB: byte := 0x09
  const NEWLINE: byte := 0x0A
  const RETURN: byte := 0x0D
  const SPACE: byte := 0x20
  const QUOTE: byte := 0x22
  const PLUS: byte := 0x2B
  const COMMA: byte := 0x2C
  const MINUS: byte := 0x2D
  const DOT: byte := 0x2E
  const SLASH: byte := 0x2F
  const ZERO: byte := 0x30
  const NINE: byte := 0x39
  const COLON: byte := 0x3A
  const UPPER_E: byte := 0x45
  const OPEN_BRACKET: byte := 0x5B
  const BACKSLASH: byte := 0x5C
  const CLOSE_BRACKET: byte := 0x5D
  const LOWER_E: byte := 0x65
  const LOWER_F: byte := 0x66
  const LOWER_N: byte := 0x6E
  const LOWER_T: byte := 0x74
  const LOWER_U: byte := 0x75
  const OPEN_BRACE: byte := 0x7B
  const CLOSE_BRACE: byte := 0x7D

  const TRUE_WORD: Bytes := [0x74, 0x72, 0x75, 0x65]
  const FALSE_WORD: Bytes := [0x66, 0x61, 0x6C, 0x73, 0x65]
  const NULL_WORD: Bytes := [0x6E, 0x75, 0x6C, 0x6C]

  /** The bytes of a text in ASCII. */
  function Ascii(s: string): (r: Bytes)
    ensures |r| == |s|
  {
    seq(|s|, i requires 0 <= i < |s| => (s[i] as int) % 256)
  }
}

/** Facts about concatenated byte strings and the places where they stand. */
module Texts {
  import opened Bytes

  lemma Associates(a: Bytes, b: Bytes, c: Bytes)
    ensures (a + b) + c == a + (b + c)
  {
  }

  lemma NothingMore(s: Bytes)
    ensures s + [] == s
  {
  }

  lemma NothingBefore(s: Bytes)
    ensures [] + s == s
  {
  }

  /** The text s stands at position p. */
  predicate Holds(inp: Bytes, p: nat, s: Bytes)
  {
    p + |s| <= |inp| && inp[p..p + |s|] == s
  }

  lemma HoldsParts(inp: Bytes, p: nat, a: Bytes, b: Bytes)
    requires Holds(inp, p, a + b)
    ensures Holds(inp, p, a) && Holds(inp, p + |a|, b)
  {
    assert inp[p..p + |a|] == inp[p..p + |a + b|][..|a|];
    assert inp[p + |a|..p + |a| + |b|] == inp[p..p + |a + b|][|a|..];
  }

  lemma HoldsThree(inp: Bytes, p: nat, a: Bytes, b: Bytes, c: Bytes)
    requires Holds(inp, p, a + b + c)
    ensures Holds(inp, p, a) && Holds(inp, p + |a|, b) && Holds(inp, p + |a| + |b|, c)
    ensures |a + b + c| == |a| + |b| + |c| && p + |a| + |b| + |c| <= |inp|
  {
    HoldsParts(inp, p, a + b, c);
    HoldsParts(inp, p, a, b);
  }

  lemma HoldsAt(inp: Bytes, p: nat, s: Bytes, k: nat)
    requires Holds(inp, p, s) && k < |s|
    ensures inp[p + k] == s[k]
  {
    assert inp[p..p + |s|][k] == inp[p + k];
  }

  lemma HoldsFits(inp: Bytes, p: nat, s: Bytes)
    requires Holds(inp, p, s)
    ensures p + |s| <= |inp| && forall k :: 0 <= k < |s| ==> s[k] == inp[p + k]
  {
    forall k | 0 <= k < |s| ensures s[k] == inp[p + k] { HoldsAt(inp, p, s, k); }
  }
}

module Options {
  datatype Option<+T> = None | Some(value: T)
}
