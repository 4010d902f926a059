/** The MessagePack encoding of a tree and its decoding, as functions of the bytes. */
module MsgPackSpec {
  import opened Bytes
  import opened Options
  import opened JsonValue
  import opened JsonOps
  import opened Scan
  import opened ParserSpec
  import SerializerSpec

  const MAX_DEPTH: nat := 512

  /**
   * What the machine's doubles do to the numbers kept by their text: whether one is an integer in [-2^63, 2^64),
   * its bits in single precision if they are exact, its bits in double precision, and the way back from each.
   */
  datatype FloatCodec = FloatCodec(
    whole: Bytes -> Option<int>,
    single: Bytes -> Option<nat>,
    double: Bytes -> nat,
    ofInt: int -> Number,
    ofSingle: nat -> Number,
    ofDouble: nat -> Number)

  const TWO_32: nat := 0x1_0000_0000
  const TWO_63: int := 0x8000_0000_0000_0000
  const TWO_64: nat := 0x1_0000_0000_0000_0000

  /** A double that the codec maps forth and back. */
  predicate CodableNumber(n: Number, fc: FloatCodec)
  {
    match n
    case Int(i) => -EXACT <= i <= EXACT
    case Float(t) =>
      var w, s := fc.whole(t), fc.single(t);
      && (w.Some? ==> -TWO_63 <= w.value < TWO_64 && !(-EXACT <= w.value <= EXACT) && fc.ofInt(w.value) == n)
      && (w.None? && s.Some? ==> s.value < TWO_32 && fc.ofSingle(s.value) == n)
      && (w.None? && s.None? ==> fc.double(t) < TWO_64 && fc.ofDouble(fc.double(t)) == n)
  }

  // --- Encoding ---

  /** The low `count` bytes of v, most significant first. */
  function BigEndian(v: nat, count: nat): (r: Bytes)
    ensures |r| == count
  {
    if count == 0 then [] else BigEndian(v / 256, count - 1) + [v % 256]
  }

  /** A length with its tag: in the tag itself, or in one, two or four bytes; t8 == 0 means there is no such tag. */
  function EncodeLen(n: nat, fixBase: byte, fixMax: nat, t8: byte, t16: byte, t32: byte): (r: Bytes)
    requires 0 < fixBase && fixBase + fixMax < 256
    ensures 1 <= |r| <= 5
  {
    if n <= fixMax then [fixBase + n]
    else if t8 != 0 && n <= 0xFF then [t8] + BigEndian(n, 1)
    else if n <= 0xFFFF then [t16] + BigEndian(n, 2)
    else [t32] + BigEndian(n, 4)
  }

  function EncodeUnsigned(u: nat): (r: Bytes)
    ensures r != []
  {
    if u <= 0x7F then [u]
    else if u <= 0xFF then [0xCC] + BigEndian(u, 1)
    else if u <= 0xFFFF then [0xCD] + BigEndian(u, 2)
    else if u <= 0xFFFF_FFFF then [0xCE] + BigEndian(u, 4)
    else [0xCF] + BigEndian(u, 8)
  }

  /** A negative integer in two's complement. */
  function EncodeNegative(i: int): (r: Bytes)
    requires i < 0
    ensures r != []
  {
    if i >= -32 then [i + 256]
    else if i >= -128 then [0xD0] + BigEndian(i % TWO_64, 1)
    else if i >= -32768 then [0xD1] + BigEndian(i % TWO_64, 2)
    else if i >= -2147483648 then [0xD2] + BigEndian(i % TWO_64, 4)
    else [0xD3] + BigEndian(i % TWO_64, 8)
  }

  function EncodeInt(i: int): (r: Bytes)
    ensures r != []
  {
    if i >= 0 then EncodeUnsigned(i) else EncodeNegative(i)
  }

  function EncodeNumber(n: Number, fc: FloatCodec): (r: Bytes)
    ensures r != []
  {
    match n
    case Int(i) => EncodeInt(i)
    case Float(t) =>
      if fc.whole(t).Some? then EncodeInt(fc.whole(t).value)
      else if fc.single(t).Some? then [0xCA] + BigEndian(fc.single(t).value, 4)
      else [0xCB] + BigEndian(fc.double(t), 8)
  }

  /** The part of a string before its first NUL, which is all that C's string functions see. */
  function CString(s: Bytes): (r: Bytes)
    ensures |r| <= |s| && (0 !in s ==> r == s)
  {
    if s == [] || s[0] == 0 then [] else [s[0]] + CString(s[1..])
  }

  function EncodeStr(s: Bytes): (r: Bytes)
    ensures r != []
  {
    EncodeLen(|CString(s)|, 0xA0, 31, 0xD9, 0xDA, 0xDB) + CString(s)
  }

  function Encode(v: Json, fc: FloatCodec): (r: Bytes)
    ensures r != []
    decreases v, 1
  {
    match v
    case Null => [0xC0]
    case Bool(b) => [if b then 0xC3 else 0xC2]
    case Num(n) => EncodeNumber(n, fc)
    case Str(s) => EncodeStr(s)
    case Arr(items) => EncodeLen(|items|, 0x90, 15, 0, 0xDC, 0xDD) + EncodeItems(items, fc)
    case Obj(ms) => EncodeLen(|ms|, 0x80, 15, 0, 0xDE, 0xDF) + EncodeMembers(ms, fc)
  }

  function EncodeItems(items: seq<Json>, fc: FloatCodec): (r: Bytes)
    ensures |r| >= |items|
    decreases items, 0
  {
    if items == [] then [] else Encode(items[0], fc) + EncodeItems(items[1..], fc)
  }

  function EncodeMembers(ms: seq<Member>, fc: FloatCodec): (r: Bytes)
    ensures |r| >= |ms|
    decreases ms, 0
  {
    if ms == [] then [] else EncodeStr(ms[0].key) + Encode(ms[0].value, fc) + EncodeMembers(ms[1..], fc)
  }

  // --- Decoding ---

  function FromBig(s: Bytes): nat
  {
    if s == [] then 0 else FromBig(s[..|s| - 1]) * 256 + s[|s| - 1]
  }

  function ReadBig(inp: Bytes, p: nat, count: nat): Option<nat>
  {
    if p + count <= |inp| then Some(FromBig(inp[p..p + count])) else None
  }

  function FromSigned(u: nat, modulus: nat): int { if u < modulus / 2 then u else u - modulus }

  function IntNumber(i: int, fc: FloatCodec): Number { if -EXACT <= i <= EXACT then Int(i) else fc.ofInt(i) }

  /** What a tag byte announces: a value in the tag, or what follows it and in how many bytes. */
  datatype Tag =
    | TagValue(v: Json)
    | TagMap(n: nat)
    | TagArray(n: nat)
    | TagString(n: nat)
    | StringLength(bytes: nat)
    | SingleBits
    | DoubleBits
    | Unsigned(bytes: nat)
    | Signed(bytes: nat)
    | ArrayLength(bytes: nat)
    | MapLength(bytes: nat)
    | Unsupported

  function TagOf(t: byte): Tag
  {
    if t <= 0x7F then TagValue(Num(Int(t)))
    else if t >= 0xE0 then TagValue(Num(Int(t - 256)))
    else if t < 0x90 then TagMap(t - 0x80)
    else if t < 0xA0 then TagArray(t - 0x90)
    else if t < 0xC0 then TagString(t - 0xA0)
    else if t == 0xC0 then TagValue(Null)
    else if t == 0xC2 then TagValue(Bool(false))
    else if t == 0xC3 then TagValue(Bool(true))
    else if t == 0xC4 || t == 0xD9 then StringLength(1)
    else if t == 0xC5 || t == 0xDA then StringLength(2)
    else if t == 0xC6 || t == 0xDB then StringLength(4)
    else if t == 0xCA then SingleBits
    else if t == 0xCB then DoubleBits
    else if t == 0xCC then Unsigned(1)
    else if t == 0xCD then Unsigned(2)
    else if t == 0xCE then Unsigned(4)
    else if t == 0xCF then Unsigned(8)
    else if t == 0xD0 then Signed(1)
    else if t == 0xD1 then Signed(2)
    else if t == 0xD2 then Signed(4)
    else if t == 0xD3 then Signed(8)
    else if t == 0xDC then ArrayLength(2)
    else if t == 0xDD then ArrayLength(4)
    else if t == 0xDE then MapLength(2)
    else if t == 0xDF then MapLength(4)
    else Unsupported
  }

  function Power256(n: nat): nat { if n == 0 then 1 else 256 * Power256(n - 1) }

  /** n raw bytes as a string. */
  function DecodeRaw(inp: Bytes, p: nat, n: nat): (r: Parse<Bytes>)
    ensures r.Ok? ==> p <= r.pos <= |inp|
  {
    if p + n <= |inp| then Ok(CString(inp[p..p + n]), p + n) else Fail
  }

  function AsString(r: Parse<Bytes>): Parse<Json> { if r.Fail? then Fail else Ok(Str(r.value), r.pos) }

  /** The scalar values: those whose content is in the tag or in a fixed number of bytes after it. */
  function DecodeScalar(inp: Bytes, p: nat, t: Tag, fc: FloatCodec): (r: Parse<Json>)
    requires p <= |inp|
    ensures r.Ok? ==> p <= r.pos <= |inp|
  {
    match t
    case TagValue(v) => Ok(v, p)
    case TagString(n) => AsString(DecodeRaw(inp, p, n))
    case StringLength(k) =>
      var n := ReadBig(inp, p, k);
      if n.None? then Fail else AsString(DecodeRaw(inp, p + k, n.value))
    case SingleBits =>
      var u := ReadBig(inp, p, 4);
      if u.None? then Fail else Ok(Num(fc.ofSingle(u.value)), p + 4)
    case DoubleBits =>
      var u := ReadBig(inp, p, 8);
      if u.None? then Fail else Ok(Num(fc.ofDouble(u.value)), p + 8)
    case Unsigned(k) =>
      var u := ReadBig(inp, p, k);
      if u.None? then Fail else Ok(Num(IntNumber(u.value, fc)), p + k)
    case Signed(k) =>
      var u := ReadBig(inp, p, k);
      if u.None? then Fail else Ok(Num(IntNumber(FromSigned(u.value, Power256(k)), fc)), p + k)
    case _ => Fail
  }

  /** The value at p, inside `depth` open containers. */
  function DecodeValue(inp: Bytes, p: nat, depth: nat, fc: FloatCodec): (r: Parse<Json>)
    requires p <= |inp|
    ensures r.Ok? ==> p < r.pos <= |inp|
    decreases |inp| - p, 0
  {
    if p >= |inp| then Fail else
    match TagOf(inp[p])
    case TagArray(n) => DecodeArray(inp, p + 1, n, depth, fc)
    case TagMap(n) => DecodeMap(inp, p + 1, n, depth, fc)
    case ArrayLength(k) =>
      var n := ReadBig(inp, p + 1, k);
      if n.None? then Fail else DecodeArray(inp, p + 1 + k, n.value, depth, fc)
    case MapLength(k) =>
      var n := ReadBig(inp, p + 1, k);
      if n.None? then Fail else DecodeMap(inp, p + 1 + k, n.value, depth, fc)
    case t => DecodeScalar(inp, p + 1, t, fc)
  }

  function DecodeArray(inp: Bytes, p: nat, n: nat, depth: nat, fc: FloatCodec): (r: Parse<Json>)
    requires p <= |inp|
    ensures r.Ok? ==> p <= r.pos <= |inp|
    decreases |inp| - p, 4
  {
    if n > |inp| - p || depth + 1 > MAX_DEPTH then Fail else
    var items := DecodeItems(inp, p, n, depth + 1, [], fc);
    if items.Fail? then Fail else Ok(Arr(items.value), items.pos)
  }

  /** The next n items, after those already in `done`. */
  function DecodeItems(inp: Bytes, p: nat, n: nat, depth: nat, done: seq<Json>, fc: FloatCodec): (r: Parse<seq<Json>>)
    requires p <= |inp|
    ensures r.Ok? ==> p <= r.pos <= |inp|
    decreases |inp| - p, 3
  {
    if n == 0 then Ok(done, p) else
    var v := DecodeValue(inp, p, depth, fc);
    if v.Fail? then Fail else DecodeItems(inp, v.pos, n - 1, depth, done + [v.value], fc)
  }

  /** A map key: a string, or the JSON text of any other value. */
  function DecodeKey(inp: Bytes, p: nat, depth: nat, fc: FloatCodec): (r: Parse<Bytes>)
    requires p <= |inp|
    ensures r.Ok? ==> p < r.pos <= |inp|
    decreases |inp| - p, 2
  {
    if p >= |inp| then Fail else
    match TagOf(inp[p])
    case TagString(n) => DecodeRaw(inp, p + 1, n)
    case StringLength(k) =>
      var n := ReadBig(inp, p + 1, k);
      if n.None? then Fail else DecodeRaw(inp, p + 1 + k, n.value)
    case _ =>
      var v := DecodeValue(inp, p, depth, fc);
      if v.Fail? then Fail
      else Ok(SerializerSpec.Serialize(v.value, SerializerSpec.PrintOptions(0, false, false)), v.pos)
  }

  function DecodeMap(inp: Bytes, p: nat, n: nat, depth: nat, fc: FloatCodec): (r: Parse<Json>)
    requires p <= |inp|
    ensures r.Ok? ==> p <= r.pos <= |inp|
    decreases |inp| - p, 4
  {
    if n > |inp| - p || depth + 1 > MAX_DEPTH then Fail else
    var ms := DecodeEntries(inp, p, n, depth + 1, [], fc);
    if ms.Fail? then Fail else Ok(Obj(ms.value), ms.pos)
  }

  /** The next n entries; a key that is there already has its value replaced. */
  function DecodeEntries(inp: Bytes, p: nat, n: nat, depth: nat, done: seq<Member>, fc: FloatCodec)
    : (r: Parse<seq<Member>>)
    requires p <= |inp|
    ensures r.Ok? ==> p <= r.pos <= |inp|
    decreases |inp| - p, 3
  {
    if n == 0 then Ok(done, p) else
    var k := DecodeKey(inp, p, depth, fc);
    if k.Fail? then Fail else
    var v := DecodeValue(inp, k.pos, depth, fc);
    if v.Fail? then Fail else DecodeEntries(inp, v.pos, n - 1, depth, SetMember(done, k.value, v.value), fc)
  }

  /** The whole buffer must be one value. */
  function Decode(inp: Bytes, fc: FloatCodec): Option<Json>
  {
    var v := DecodeValue(inp, 0, 0, fc);
    if v.Fail? || v.pos != |inp| then None else Some(v.value)
  }
}

/** Decoding an encoding gives the tree back and consumes exactly the encoding. */
module MsgPackRoundTrip {
  import opened Bytes
  import opened Texts
  import opened Options
  import opened JsonValue
  import opened JsonOps
  import opened ParserSpec
  import opened MsgPackSpec
  import SerializerRoundTrip

  predicate CodableString(s: Bytes) { 0 !in s && |s| < TWO_32 }

  /** Numbers the codec keeps, strings without NUL, and lengths that fit four bytes. */
  predicate Codable(v: Json, fc: FloatCodec)
  {
    match v
    case Num(n) => CodableNumber(n, fc)
    case Str(s) => CodableString(s)
    case Arr(items) => |items| < TWO_32 && forall i :: 0 <= i < |items| ==> Codable(items[i], fc)
    case Obj(ms) =>
      |ms| < TWO_32 && forall i :: 0 <= i < |ms| ==> CodableString(ms[i].key) && Codable(ms[i].value, fc)
    case _ => true
  }

  // --- Big-endian integers ---

  lemma {:induction false} BigReadsBack(v: nat, count: nat)
    requires v < Power256(count)
    ensures FromBig(BigEndian(v, count)) == v
    decreases count
  {
    if count > 0 {
      BigReadsBack(v / 256, count - 1);
      var r := BigEndian(v, count);
      assert r[..|r| - 1] == BigEndian(v / 256, count - 1);
    }
  }

  /** Only the low bytes of a number are written. */
  lemma {:induction false} BigTruncates(v: nat, m: nat, count: nat)
    ensures BigEndian(v + m * Power256(count), count) == BigEndian(v, count)
    decreases count
  {
    if count > 0 {
      var k := m * Power256(count - 1);
      assert m * Power256(count) == 256 * k;
      assert (v + 256 * k) / 256 == v / 256 + k && (v + 256 * k) % 256 == v % 256;
      BigTruncates(v / 256, m, count - 1);
    }
  }

  lemma Powers()
    ensures Power256(1) == 0x100 && Power256(2) == 0x1_0000 && Power256(4) == TWO_32 && Power256(8) == TWO_64
  {
    assert Power256(2) == 256 * Power256(1);
    assert Power256(3) == 256 * Power256(2);
    assert Power256(4) == 256 * Power256(3);
    assert Power256(5) == 256 * Power256(4);
    assert Power256(6) == 256 * Power256(5);
    assert Power256(7) == 256 * Power256(6);
    assert Power256(8) == 256 * Power256(7);
  }

  lemma ByteHeld(c: byte, inp: Bytes, p: nat)
    requires Holds(inp, p, [c])
    ensures p < |inp| && inp[p] == c
  {
    HoldsAt(inp, p, [c], 0);
  }

  lemma BigHeld(v: nat, count: nat, inp: Bytes, p: nat)
    requires v < Power256(count) && Holds(inp, p, BigEndian(v, count))
    ensures ReadBig(inp, p, count) == Some(v) && p + count <= |inp|
  {
    BigReadsBack(v, count);
  }

  /** A tag byte and a number after it. */
  lemma TaggedHeld(tag: byte, v: nat, count: nat, inp: Bytes, p: nat)
    requires v < Power256(count) && Holds(inp, p, [tag] + BigEndian(v, count))
    ensures p + 1 + count <= |inp| && inp[p] == tag && ReadBig(inp, p + 1, count) == Some(v)
  {
    HoldsParts(inp, p, [tag], BigEndian(v, count));
    HoldsAt(inp, p, [tag], 0);
    BigHeld(v, count, inp, p + 1);
  }

  // --- Numbers ---

  lemma UnsignedDecodes(u: nat, inp: Bytes, p: nat, depth: nat, fc: FloatCodec)
    requires u < TWO_64 && Holds(inp, p, EncodeUnsigned(u))
    ensures DecodeValue(inp, p, depth, fc) == Ok(Num(IntNumber(u, fc)), p + |EncodeUnsigned(u)|)
  {
    Powers();
    hide Holds, Power256, BigEndian, ReadBig;
    if u <= 0x7F {
      ByteHeld(u, inp, p);
    } else if u <= 0xFF {
      TaggedHeld(0xCC, u, 1, inp, p);
    } else if u <= 0xFFFF {
      TaggedHeld(0xCD, u, 2, inp, p);
    } else if u <= 0xFFFF_FFFF {
      TaggedHeld(0xCE, u, 4, inp, p);
    } else {
      TaggedHeld(0xCF, u, 8, inp, p);
    }
  }

  /** Two's complement: the low bytes of i modulo 2^64 are those of i + 2^(8 count). */
  lemma NegativeBytes(i: int, count: nat)
    requires count == 1 || count == 2 || count == 4 || count == 8
    requires -(Power256(count) as int) <= i * 2 && i < 0
    ensures i + Power256(count) >= 0
    ensures BigEndian(i % TWO_64, count) == BigEndian(i + Power256(count), count)
  {
    Powers();
    assert i % TWO_64 == i + TWO_64;
    var m := TWO_64 / Power256(count) - 1;
    assert i + TWO_64 == i + Power256(count) + m * Power256(count);
    BigTruncates(i + Power256(count), m, count);
  }

  lemma SignedHeld(tag: byte, i: int, count: nat, inp: Bytes, p: nat)
    requires count == 1 || count == 2 || count == 4 || count == 8
    requires -(Power256(count) as int) <= i * 2 && i < 0
    requires Holds(inp, p, [tag] + BigEndian(i % TWO_64, count))
    ensures p + 1 + count <= |inp| && inp[p] == tag
    ensures var u := ReadBig(inp, p + 1, count); u.Some? && FromSigned(u.value, Power256(count)) == i
  {
    NegativeBytes(i, count);
    Powers();
    hide Power256, BigEndian, ReadBig, Holds;
    TaggedHeld(tag, i + Power256(count), count, inp, p);
  }

  lemma NegativeDecodes(i: int, inp: Bytes, p: nat, depth: nat, fc: FloatCodec)
    requires -TWO_63 <= i < 0 && Holds(inp, p, EncodeNegative(i))
    ensures DecodeValue(inp, p, depth, fc) == Ok(Num(IntNumber(i, fc)), p + |EncodeNegative(i)|)
  {
    Powers();
    hide Holds, Power256, BigEndian, ReadBig, FromSigned;
    if i >= -32 {
      ByteHeld(i + 256, inp, p);
    } else if i >= -128 {
      SignedHeld(0xD0, i, 1, inp, p);
    } else if i >= -32768 {
      SignedHeld(0xD1, i, 2, inp, p);
    } else if i >= -2147483648 {
      SignedHeld(0xD2, i, 4, inp, p);
    } else {
      SignedHeld(0xD3, i, 8, inp, p);
    }
  }

  lemma NumberDecodes(n: Number, inp: Bytes, p: nat, depth: nat, fc: FloatCodec)
    requires CodableNumber(n, fc) && Holds(inp, p, EncodeNumber(n, fc))
    ensures DecodeValue(inp, p, depth, fc) == Ok(Num(n), p + |EncodeNumber(n, fc)|)
  {
    hide Holds, BigEndian, EncodeUnsigned, EncodeNegative, ReadBig;
    Powers();
    hide Power256;
    if n.Int? || fc.whole(n.text).Some? {
      var i := if n.Int? then n.i else fc.whole(n.text).value;
      hide DecodeValue;
      if i >= 0 { UnsignedDecodes(i, inp, p, depth, fc); } else { NegativeDecodes(i, inp, p, depth, fc); }
    } else if fc.single(n.text).Some? {
      TaggedHeld(0xCA, fc.single(n.text).value, 4, inp, p);
    } else {
      TaggedHeld(0xCB, fc.double(n.text), 8, inp, p);
    }
  }

  // --- Strings ---

  lemma StringTagHeld(s: Bytes, inp: Bytes, p: nat)
    requires |s| < TWO_32 && Holds(inp, p, EncodeLen(|s|, 0xA0, 31, 0xD9, 0xDA, 0xDB))
    ensures p < |inp|
    ensures var e := p + |EncodeLen(|s|, 0xA0, 31, 0xD9, 0xDA, 0xDB)|;
            || (TagOf(inp[p]) == TagString(|s|) && e == p + 1)
            || (TagOf(inp[p]).StringLength? && var k := TagOf(inp[p]).bytes;
                ReadBig(inp, p + 1, k) == Some(|s|) && e == p + 1 + k)
  {
    Powers();
    hide Holds, Power256, BigEndian, ReadBig;
    var n := |s|;
    if n <= 31 {
      ByteHeld(0xA0 + n, inp, p);
    } else if n <= 0xFF {
      TaggedHeld(0xD9, n, 1, inp, p);
    } else if n <= 0xFFFF {
      TaggedHeld(0xDA, n, 2, inp, p);
    } else {
      TaggedHeld(0xDB, n, 4, inp, p);
    }
  }

  lemma StringDecodes(s: Bytes, inp: Bytes, p: nat, depth: nat, fc: FloatCodec)
    requires CodableString(s) && Holds(inp, p, EncodeStr(s))
    ensures DecodeValue(inp, p, depth, fc) == Ok(Str(s), p + |EncodeStr(s)|)
    ensures DecodeKey(inp, p, depth, fc) == Ok(s, p + |EncodeStr(s)|)
  {
    hide TagOf, EncodeLen, CString, ReadBig, DecodeRaw, Holds, DecodeValue, DecodeKey;
    var tag := EncodeLen(|s|, 0xA0, 31, 0xD9, 0xDA, 0xDB);
    HoldsParts(inp, p, tag, s);
    StringTagHeld(s, inp, p);
    RawHeld(s, inp, p + |tag|);
    StringTagReads(inp, p, p + |tag|, |s|, depth, fc);
  }

  lemma StringTagReads(inp: Bytes, p: nat, e: nat, n: nat, depth: nat, fc: FloatCodec)
    requires p < |inp|
    requires (TagOf(inp[p]) == TagString(n) && e == p + 1)
          || (TagOf(inp[p]).StringLength? && e == p + 1 + TagOf(inp[p]).bytes
              && ReadBig(inp, p + 1, TagOf(inp[p]).bytes) == Some(n))
    ensures DecodeValue(inp, p, depth, fc) == AsString(DecodeRaw(inp, e, n))
    ensures DecodeKey(inp, p, depth, fc) == DecodeRaw(inp, e, n)
  {
    hide TagOf, DecodeRaw;
  }

  lemma RawHeld(s: Bytes, inp: Bytes, p: nat)
    requires 0 !in s && Holds(inp, p, s)
    ensures DecodeRaw(inp, p, |s|) == Ok(s, p + |s|)
  {
  }

  // --- Containers ---

  lemma ArrayTagHeld(n: nat, inp: Bytes, p: nat, depth: nat, fc: FloatCodec)
    requires n < TWO_32 && Holds(inp, p, EncodeLen(n, 0x90, 15, 0, 0xDC, 0xDD))
    ensures var e := p + |EncodeLen(n, 0x90, 15, 0, 0xDC, 0xDD)|;
            e <= |inp| && DecodeValue(inp, p, depth, fc) == DecodeArray(inp, e, n, depth, fc)
  {
    Powers();
    hide Holds, Power256, BigEndian, ReadBig, DecodeArray;
    if n <= 15 {
      ByteHeld(0x90 + n, inp, p);
    } else if n <= 0xFFFF {
      TaggedHeld(0xDC, n, 2, inp, p);
    } else {
      TaggedHeld(0xDD, n, 4, inp, p);
    }
  }

  lemma MapTagHeld(n: nat, inp: Bytes, p: nat, depth: nat, fc: FloatCodec)
    requires n < TWO_32 && Holds(inp, p, EncodeLen(n, 0x80, 15, 0, 0xDE, 0xDF))
    ensures var e := p + |EncodeLen(n, 0x80, 15, 0, 0xDE, 0xDF)|;
            e <= |inp| && DecodeValue(inp, p, depth, fc) == DecodeMap(inp, e, n, depth, fc)
  {
    Powers();
    hide Holds, Power256, BigEndian, ReadBig, DecodeMap;
    if n <= 15 {
      ByteHeld(0x80 + n, inp, p);
    } else if n <= 0xFFFF {
      TaggedHeld(0xDE, n, 2, inp, p);
    } else {
      TaggedHeld(0xDF, n, 4, inp, p);
    }
  }

  lemma {:induction false} ValueDecodes(v: Json, inp: Bytes, p: nat, depth: nat, fc: FloatCodec)
    requires Codable(v, fc) && Unique(v) && depth <= MAX_DEPTH && SerializerRoundTrip.Within(v, MAX_DEPTH - depth)
    requires Holds(inp, p, Encode(v, fc))
    ensures DecodeValue(inp, p, depth, fc) == Ok(v, p + |Encode(v, fc)|)
    decreases v, 1
  {
    hide EncodeNumber, EncodeStr, EncodeLen, EncodeItems, EncodeMembers, DecodeArray, DecodeMap, CodableNumber,
         CodableString, UniqueMembers;
    match v
    case Num(n) => NumberDecodes(n, inp, p, depth, fc);
    case Str(s) => StringDecodes(s, inp, p, depth, fc);
    case Arr(items) =>
      var tag := EncodeLen(|items|, 0x90, 15, 0, 0xDC, 0xDD);
      HoldsParts(inp, p, tag, EncodeItems(items, fc));
      ArrayTagHeld(|items|, inp, p, depth, fc);
      ArrayDecodes(items, inp, p + |tag|, depth, fc);
    case Obj(ms) =>
      var tag := EncodeLen(|ms|, 0x80, 15, 0, 0xDE, 0xDF);
      HoldsParts(inp, p, tag, EncodeMembers(ms, fc));
      MapTagHeld(|ms|, inp, p, depth, fc);
      MapDecodes(ms, inp, p + |tag|, depth, fc);
    case _ => ByteHeld(Encode(v, fc)[0], inp, p);
  }

  /** The guard on the length never fires: every item takes at least one byte. */
  lemma {:induction false} ArrayDecodes(items: seq<Json>, inp: Bytes, p: nat, depth: nat, fc: FloatCodec)
    requires forall i :: 0 <= i < |items| ==> Codable(items[i], fc) && Unique(items[i])
    requires depth < MAX_DEPTH
    requires forall i :: 0 <= i < |items| ==> SerializerRoundTrip.Within(items[i], MAX_DEPTH - depth - 1)
    requires Holds(inp, p, EncodeItems(items, fc))
    ensures p <= |inp| && DecodeArray(inp, p, |items|, depth, fc) == Ok(Arr(items), p + |EncodeItems(items, fc)|)
    decreases items, 1
  {
    hide DecodeItems, EncodeItems, Codable, Unique, SerializerRoundTrip.Within;
    HoldsFits(inp, p, EncodeItems(items, fc));
    ItemsDecode(items, [], inp, p, depth + 1, fc);
    assert [] + items == items;
  }

  lemma {:induction false} ItemsDecode(
      items: seq<Json>, done: seq<Json>, inp: Bytes, p: nat, depth: nat, fc: FloatCodec)
    requires forall i :: 0 <= i < |items| ==> Codable(items[i], fc) && Unique(items[i])
    requires depth <= MAX_DEPTH
    requires forall i :: 0 <= i < |items| ==> SerializerRoundTrip.Within(items[i], MAX_DEPTH - depth)
    requires Holds(inp, p, EncodeItems(items, fc))
    ensures p <= |inp|
    ensures DecodeItems(inp, p, |items|, depth, done, fc) == Ok(done + items, p + |EncodeItems(items, fc)|)
    decreases items, 0
  {
    hide DecodeValue, Encode, Codable, Unique, SerializerRoundTrip.Within, Holds;
    HoldsFits(inp, p, EncodeItems(items, fc));
    if items == [] {
      assert done + items == done;
    } else {
      HoldsParts(inp, p, Encode(items[0], fc), EncodeItems(items[1..], fc));
      ValueDecodes(items[0], inp, p, depth, fc);
      ItemsDecode(items[1..], done + [items[0]], inp, p + |Encode(items[0], fc)|, depth, fc);
      assert done + [items[0]] + items[1..] == done + items;
    }
  }

  lemma {:induction false} MapDecodes(ms: seq<Member>, inp: Bytes, p: nat, depth: nat, fc: FloatCodec)
    requires forall i :: 0 <= i < |ms| ==> CodableString(ms[i].key) && Codable(ms[i].value, fc) && Unique(ms[i].value)
    requires depth < MAX_DEPTH && UniqueMembers(ms)
    requires forall i :: 0 <= i < |ms| ==> SerializerRoundTrip.Within(ms[i].value, MAX_DEPTH - depth - 1)
    requires Holds(inp, p, EncodeMembers(ms, fc))
    ensures p <= |inp| && DecodeMap(inp, p, |ms|, depth, fc) == Ok(Obj(ms), p + |EncodeMembers(ms, fc)|)
    decreases ms, 1
  {
    hide DecodeEntries, EncodeMembers, Codable, CodableString, Unique, SerializerRoundTrip.Within, UniqueMembers;
    HoldsFits(inp, p, EncodeMembers(ms, fc));
    assert [] + ms == ms;
    EntriesDecode(ms, [], inp, p, depth + 1, fc);
  }

  /** A key that is not there yet is appended. */
  lemma FreshKey(done: seq<Member>, ms: seq<Member>)
    requires ms != [] && UniqueMembers(done + ms)
    ensures SetMember(done, ms[0].key, ms[0].value) == done + [ms[0]]
    ensures done + [ms[0]] + ms[1..] == done + ms
  {
    forall i | 0 <= i < |done| ensures done[i].key != ms[0].key {
      assert (done + ms)[i] == done[i] && (done + ms)[|done|] == ms[0];
    }
  }

  lemma {:induction false} EntriesDecode(
      ms: seq<Member>, done: seq<Member>, inp: Bytes, p: nat, depth: nat, fc: FloatCodec)
    requires forall i :: 0 <= i < |ms| ==> CodableString(ms[i].key) && Codable(ms[i].value, fc) && Unique(ms[i].value)
    requires depth <= MAX_DEPTH && UniqueMembers(done + ms)
    requires forall i :: 0 <= i < |ms| ==> SerializerRoundTrip.Within(ms[i].value, MAX_DEPTH - depth)
    requires Holds(inp, p, EncodeMembers(ms, fc))
    ensures p <= |inp|
    ensures DecodeEntries(inp, p, |ms|, depth, done, fc) == Ok(done + ms, p + |EncodeMembers(ms, fc)|)
    decreases ms, 0
  {
    hide DecodeValue, DecodeKey, Encode, EncodeStr, Codable, CodableString, Unique, SerializerRoundTrip.Within, Holds,
         SetMember, UniqueMembers;
    HoldsFits(inp, p, EncodeMembers(ms, fc));
    if ms == [] {
      assert done + ms == done;
    } else {
      var key, value := EncodeStr(ms[0].key), Encode(ms[0].value, fc);
      HoldsThree(inp, p, key, value, EncodeMembers(ms[1..], fc));
      StringDecodes(ms[0].key, inp, p, depth, fc);
      ValueDecodes(ms[0].value, inp, p + |key|, depth, fc);
      FreshKey(done, ms);
      EntriesDecode(ms[1..], done + [ms[0]], inp, p + |key| + |value|, depth, fc);
    }
  }

  /** Decoding consumes exactly the encoding, whatever follows it. */
  lemma EncodeThenDecode(v: Json, rest: Bytes, fc: FloatCodec)
    requires Codable(v, fc) && Unique(v) && SerializerRoundTrip.Within(v, MAX_DEPTH)
    ensures DecodeValue(Encode(v, fc) + rest, 0, 0, fc) == Ok(v, |Encode(v, fc)|)
    ensures Decode(Encode(v, fc), fc) == Some(v)
  {
    hide Encode, DecodeValue, Codable, Unique, SerializerRoundTrip.Within;
    var e := Encode(v, fc);
    assert Holds(e + rest, 0, e) && Holds(e, 0, e);
    ValueDecodes(v, e + rest, 0, 0, fc);
    ValueDecodes(v, e, 0, 0, fc);
  }
}
