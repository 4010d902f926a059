/** The text the serializer writes, as a function of the tree. */
module SerializerSpec {
  import opened Bytes
  import opened Options
  import opened Scan
  import opened Utf8
  import opened Decimal
  import opened JsonValue

  datatype PrintOptions = PrintOptions(indent: nat, sortKeys: bool, escapeUnicode: bool)

  // --- Strings ---

  function HexChar(d: nat): (c: byte)
    requires d < 16
    ensures HexDigit(c) == d
  {
    if d < 10 then ZERO + d else 0x61 + (d - 10)
  }

  /** The \uXXXX escape of a code unit. */
  function UnitEscape(u: nat): (r: Bytes)
    requires u < 0x10000
    ensures |r| == 6
  {
    [BACKSLASH, LOWER_U, HexChar(u / 4096), HexChar(u / 256 % 16), HexChar(u / 16 % 16), HexChar(u % 16)]
  }

  predicate PlainByte(c: byte, escapeUnicode: bool)
  {
    c >= 0x20 && c != QUOTE && c != BACKSLASH && (c < 0x80 || !escapeUnicode)
  }

  /** The escape of an ASCII character that is not plain. */
  function ShortEscape(c: byte): Bytes
    requires c < 0x80
  {
    if c == QUOTE then [BACKSLASH, QUOTE]
    else if c == BACKSLASH then [BACKSLASH, BACKSLASH]
    else if c == 0x08 then [BACKSLASH, 0x62]
    else if c == 0x0C then [BACKSLASH, 0x66]
    else if c == NEWLINE then [BACKSLASH, 0x6E]
    else if c == RETURN then [BACKSLASH, 0x72]
    else if c == TAB then [BACKSLASH, 0x74]
    else UnitEscape(c)
  }

  function CodePointEscape(cp: nat): (r: Bytes)
    requires cp < 0x110000
  {
    if cp >= 0x10000 then UnitEscape(0xD800 + (cp - 0x10000) / 1024) + UnitEscape(0xDC00 + (cp - 0x10000) % 1024)
    else UnitEscape(cp)
  }

  /** The characters of a string literal from byte i of s on; a NUL ends the string. */
  function StringBody(s: Bytes, i: nat, escapeUnicode: bool): Bytes
    requires i <= |s|
    decreases |s| - i
  {
    if i == |s| || s[i] == 0 then []
    else if PlainByte(s[i], escapeUnicode) then [s[i]] + StringBody(s, i + 1, escapeUnicode)
    else if s[i] < 0x80 then ShortEscape(s[i]) + StringBody(s, i + 1, escapeUnicode)
    else
      var d := Utf8Decode(s, i);
      if d.len == 0 then UnitEscape(0xFFFD) + StringBody(s, i + 1, escapeUnicode)
      else CodePointEscape(d.cp) + StringBody(s, i + d.len, escapeUnicode)
  }

  function PrintString(s: Bytes, escapeUnicode: bool): Bytes
  {
    [QUOTE] + StringBody(s, 0, escapeUnicode) + [QUOTE]
  }

  // --- Numbers ---

  function PrintInt(i: int): Bytes
  {
    if i < 0 then [MINUS] + DecimalText(-i) else DecimalText(i)
  }

  function PrintNumber(n: Number): Bytes
  {
    match n
    case Int(i) => PrintInt(i)
    case Float(t) => t
  }

  // --- Values ---

  function Spaces(n: nat): (r: Bytes)
    ensures |r| == n && forall k :: 0 <= k < n ==> r[k] == SPACE
  {
    seq(n, _ => SPACE)
  }

  function NewLine(o: PrintOptions, depth: nat): Bytes
  {
    if o.indent == 0 then [] else [NEWLINE] + Spaces(depth * o.indent)
  }

  function Print(v: Json, o: PrintOptions, depth: nat): Bytes
    decreases v, 1
  {
    match v
    case Null => NULL_WORD
    case Bool(b) => if b then TRUE_WORD else FALSE_WORD
    case Num(n) => PrintNumber(n)
    case Str(s) => PrintString(s, o.escapeUnicode)
    case Arr(items) =>
      if items == [] then [OPEN_BRACKET, CLOSE_BRACKET]
      else [OPEN_BRACKET] + PrintItems(items, o, depth + 1) + (NewLine(o, depth) + [CLOSE_BRACKET])
    case Obj(members) =>
      if members == [] then [OPEN_BRACE, CLOSE_BRACE]
      else [OPEN_BRACE] + PrintMembers(members, o, depth + 1) + (NewLine(o, depth) + [CLOSE_BRACE])
  }

  /** One or more items, each on its line. */
  function PrintItems(items: seq<Json>, o: PrintOptions, depth: nat): Bytes
    requires items != []
    decreases items, 0
  {
    NewLine(o, depth) + Print(items[0], o, depth)
    + (if |items| == 1 then [] else [COMMA] + PrintItems(items[1..], o, depth))
  }

  function KeySeparator(o: PrintOptions): Bytes { if o.indent > 0 then [COLON, SPACE] else [COLON] }

  function PrintMember(m: Member, o: PrintOptions, depth: nat): Bytes
    decreases m, 2
  {
    NewLine(o, depth) + PrintString(m.key, o.escapeUnicode) + (KeySeparator(o) + Print(m.value, o, depth))
  }

  function PrintMembers(members: seq<Member>, o: PrintOptions, depth: nat): Bytes
    requires members != []
    decreases members, 0
  {
    PrintMember(members[0], o, depth)
    + (if |members| == 1 then [] else [COMMA] + PrintMembers(members[1..], o, depth))
  }

  // --- Key order ---

  /** Byte-wise comparison of keys, as strcmp compares them. */
  predicate KeyLess(a: Bytes, b: Bytes)
  {
    if b == [] then false
    else if a == [] then true
    else a[0] < b[0] || (a[0] == b[0] && KeyLess(a[1..], b[1..]))
  }

  function InsertByKey(m: Member, ms: seq<Member>): seq<Member>
  {
    if ms == [] || KeyLess(m.key, ms[0].key) then [m] + ms else [ms[0]] + InsertByKey(m, ms[1..])
  }

  /** The members in key order; members with equal keys keep their order here, where the source leaves it open. */
  function SortByKey(ms: seq<Member>): seq<Member>
  {
    if ms == [] then [] else InsertByKey(ms[|ms| - 1], SortByKey(ms[..|ms| - 1]))
  }

  function Arrange(ms: seq<Member>, sortKeys: bool): seq<Member> { if sortKeys then SortByKey(ms) else ms }

  /** The tree whose members stand in the order in which they are written. */
  function Arranged(v: Json, sortKeys: bool): (r: Json)
    decreases v, 1
  {
    match v
    case Arr(items) => Arr(ArrangedItems(items, sortKeys))
    case Obj(members) => Obj(Arrange(ArrangedMembers(members, sortKeys), sortKeys))
    case _ => v
  }

  function ArrangedItems(items: seq<Json>, sortKeys: bool): (r: seq<Json>)
    ensures |r| == |items|
    decreases items, 0
  {
    if items == [] then [] else [Arranged(items[0], sortKeys)] + ArrangedItems(items[1..], sortKeys)
  }

  function ArrangedMembers(ms: seq<Member>, sortKeys: bool): (r: seq<Member>)
    ensures |r| == |ms|
    decreases ms, 0
  {
    if ms == [] then []
    else [Member(ms[0].key, Arranged(ms[0].value, sortKeys))] + ArrangedMembers(ms[1..], sortKeys)
  }

  function Serialize(v: Json, o: PrintOptions): Bytes { Print(Arranged(v, o.sortKeys), o, 0) }
}
