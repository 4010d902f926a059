/** Parsing the serializer's output gives the tree back. */
module SerializerRoundTrip {
  import opened Bytes
  import opened Texts
  import opened Options
  import opened Scan
  import opened Utf8
  import opened Decimal
  import opened JsonValue
  import opened JsonOps
  import opened ParserSpec
  import opened SerializerSpec
  import opened NumberScan

  // --- Strings ---

  /** Valid UTF-8 without NUL. */
  predicate GoodString(s: Bytes) { InvalidAt(s, 0, |s|) == |s| && 0 !in s }

  lemma UnitReads(inp: Bytes, p: nat, u: nat)
    requires u < 0x10000 && Holds(inp, p, UnitEscape(u))
    ensures inp[p] == BACKSLASH && inp[p + 1] == LOWER_U && Hex4(inp, p + 2) == u
  {
    var e := UnitEscape(u);
    HoldsAt(inp, p, e, 0);
    HoldsAt(inp, p, e, 1);
    HoldsAt(inp, p, e, 2);
    HoldsAt(inp, p, e, 3);
    HoldsAt(inp, p, e, 4);
    HoldsAt(inp, p, e, 5);
    HexDigits(u);
  }

  lemma HexDigits(u: nat)
    requires u < 0x10000
    ensures ((u / 4096 * 16 + u / 256 % 16) * 16 + u / 16 % 16) * 16 + u % 16 == u
  {
    assert u / 256 == u / 4096 * 16 + u / 256 % 16;
    assert u / 16 == u / 256 * 16 + u / 16 % 16;
  }

  /** The escape of a code point decodes to its UTF-8 encoding. */
  lemma CodePointReads(inp: Bytes, p: nat, cp: nat)
    requires cp < 0x110000 && !(0xD800 <= cp <= 0xDFFF) && Holds(inp, p, CodePointEscape(cp))
    ensures p < |inp| && inp[p] == BACKSLASH
    ensures DecodeEscape(inp, p, |inp|) == Escaped(Utf8Encode(cp), |CodePointEscape(cp)|)
  {
    hide Utf8Encode, HexChar, Hex4;
    if cp >= 0x10000 {
      var hi: nat, lo: nat := 0xD800 + (cp - 0x10000) / 1024, 0xDC00 + (cp - 0x10000) % 1024;
      HoldsParts(inp, p, UnitEscape(hi), UnitEscape(lo));
      UnitReads(inp, p, hi);
      UnitReads(inp, p + 6, lo);
      assert SurrogatePair(hi, lo) == cp;
    } else {
      UnitReads(inp, p, cp);
    }
  }

  lemma ShortReads(inp: Bytes, p: nat, c: byte)
    requires c < 0x80 && !PlainByte(c, false) && Holds(inp, p, ShortEscape(c))
    ensures p < |inp| && inp[p] == BACKSLASH
    ensures DecodeEscape(inp, p, |inp|) == Escaped([c], |ShortEscape(c)|)
  {
    var e := ShortEscape(c);
    HoldsAt(inp, p, e, 0);
    HoldsAt(inp, p, e, 1);
    if e == UnitEscape(c) && |e| == 6 {
      UnitReads(inp, p, c);
    }
  }

  /** A raw character is read whole. */
  lemma RawReads(inp: Bytes, p: nat, s: Bytes, i: nat, len: nat)
    requires i < |s| && len == Utf8Length(s, i, |s|) && len > 0 && Holds(inp, p, s[i..i + len])
    ensures Utf8Length(inp, p, |inp|) == len && inp[p] == s[i] && inp[p..p + len] == s[i..i + len]
  {
    HoldsAt(inp, p, s[i..i + len], 0);
    if len > 1 { HoldsAt(inp, p, s[i..i + len], 1); }
    if len > 2 { HoldsAt(inp, p, s[i..i + len], 2); }
    if len > 3 { HoldsAt(inp, p, s[i..i + len], 3); }
  }

  /** Without escaping, the bytes of a character are written one after the other. */
  lemma {:induction false} RawRun(s: Bytes, i: nat, j: nat)
    requires i <= j <= |s| && forall k :: i <= k < j ==> PlainByte(s[k], false) && s[k] != 0
    ensures StringBody(s, i, false) == s[i..j] + StringBody(s, j, false)
    decreases j - i
  {
    hide ShortEscape, Utf8Decode, CodePointEscape, UnitEscape;
    if i < j {
      RawRun(s, i + 1, j);
      assert [s[i]] + s[i + 1..j] == s[i..j];
      assert [s[i]] + (s[i + 1..j] + StringBody(s, j, false)) == s[i..j] + StringBody(s, j, false);
    } else {
      assert s[i..j] == [];
    }
  }

  lemma {:induction false} BodyReads(s: Bytes, i: nat, esc: bool, inp: Bytes, p: nat)
    requires i <= |s| && InvalidAt(s, i, |s|) == |s| && 0 !in s
    requires Holds(inp, p, StringBody(s, i, esc) + [QUOTE])
    ensures ReadString(inp, p) == Ok(s[i..], p + |StringBody(s, i, esc)| + 1)
    decreases |s| - i
  {
    hide Utf8Length, StringBody, BodyHead, ReadString;
    if i == |s| {
      EmptyBodyReads(s, esc, inp, p);
    } else {
      var len := Utf8Length(s, i, |s|);
      var head := BodyHead(s, i, esc);
      BodySplits(s, i, esc);
      var rest := StringBody(s, i + len, esc);
      assert head + rest + [QUOTE] == head + (rest + [QUOTE]);
      HoldsParts(inp, p, head, rest + [QUOTE]);
      BodyReads(s, i + len, esc, inp, p + |head|);
      HeadReads(s, i, esc, inp, p);
      assert s[i..i + len] + s[i + len..] == s[i..];
    }
  }

  lemma EmptyBodyReads(s: Bytes, esc: bool, inp: Bytes, p: nat)
    requires Holds(inp, p, StringBody(s, |s|, esc) + [QUOTE])
    ensures ReadString(inp, p) == Ok([], p + 1) && StringBody(s, |s|, esc) == []
  {
    HoldsAt(inp, p, [] + [QUOTE], 0);
  }

  /** What one character of s is written as. */
  function BodyHead(s: Bytes, i: nat, esc: bool): Bytes
    requires i < |s|
  {
    if s[i] < 0x80 then (if PlainByte(s[i], esc) then [s[i]] else ShortEscape(s[i]))
    else if esc then CodePointEscape(if Utf8Decode(s, i).len > 0 then Utf8Decode(s, i).cp else 0xFFFD)
    else s[i..i + Utf8Length(s, i, |s|)]
  }

  lemma BodySplits(s: Bytes, i: nat, esc: bool)
    requires i < |s| && Utf8Length(s, i, |s|) > 0 && 0 !in s
    ensures StringBody(s, i, esc) == BodyHead(s, i, esc) + StringBody(s, i + Utf8Length(s, i, |s|), esc)
  {
    DecodedLength(s, i);
    if s[i] >= 0x80 && !esc {
      RawRun(s, i, i + Utf8Length(s, i, |s|));
    }
  }

  lemma HeadReads(s: Bytes, i: nat, esc: bool, inp: Bytes, p: nat)
    requires i < |s| && Utf8Length(s, i, |s|) > 0 && Holds(inp, p, BodyHead(s, i, esc))
    ensures var len := Utf8Length(s, i, |s|);
            p < |inp| && p + |BodyHead(s, i, esc)| <= |inp|
            && ReadString(inp, p) == Prepend(s[i..i + len], ReadString(inp, p + |BodyHead(s, i, esc)|))
  {
    hide Utf8Encode, Hex4, SimpleEscape, DecodeEscape, UnitEscape, CodePointEscape, ShortEscape, Utf8Decode;
    DecodedLength(s, i);
    var len := Utf8Length(s, i, |s|);
    if s[i] < 0x80 {
      assert s[i..i + 1] == [s[i]];
      if PlainByte(s[i], esc) {
        RawReads(inp, p, s, i, len);
      } else {
        ShortReads(inp, p, s[i]);
      }
    } else if esc {
      CodePointReads(inp, p, Utf8Decode(s, i).cp);
      EncodeDecode(s, i);
    } else {
      RawReads(inp, p, s, i, len);
    }
  }

  lemma StringReads(s: Bytes, esc: bool, inp: Bytes, p: nat)
    requires GoodString(s) && Holds(inp, p, PrintString(s, esc))
    ensures inp[p] == QUOTE && ReadString(inp, p + 1) == Ok(s, p + |PrintString(s, esc)|)
  {
    var b := StringBody(s, 0, esc);
    assert PrintString(s, esc) == [QUOTE] + (b + [QUOTE]);
    HoldsParts(inp, p, [QUOTE], b + [QUOTE]);
    HoldsAt(inp, p, [QUOTE], 0);
    BodyReads(s, 0, esc, inp, p + 1);
    assert s[0..] == s;
  }

  // --- Numbers ---

  /** A number that the serializer writes as JSON and the parser maps to itself: an integer of magnitude at most
      2^53, or any other number under the text of it that the serializer writes. */
  predicate GoodNumber(n: Number)
  {
    match n
    case Int(i) => -EXACT <= i <= EXACT
    case Float(t) => IsNumberText(t) && NumberValue(t) == n
  }

  lemma IntScans(i: int)
    ensures IsNumberText(PrintInt(i))
  {
    SignedScans(i < 0, if i < 0 then -i else i);
    NothingBefore(PrintInt(i));
  }

  lemma IntDenotes(i: int)
    requires -EXACT <= i <= EXACT
    ensures NumberValue(PrintInt(i)) == Int(i)
  {
    var t := PrintInt(i);
    if i < 0 {
      assert t[1..] == DecimalText(-i);
      DecimalValue(-i);
    } else {
      DecimalValue(i);
    }
  }

  lemma NumberReads(n: Number, inp: Bytes, p: nat)
    requires GoodNumber(n) && Holds(inp, p, PrintNumber(n))
    requires var e := p + |PrintNumber(n)|; e < |inp| ==> !IsNumberChar(inp[e])
    ensures ReadNumber(inp, p) == Ok(Num(n), p + |PrintNumber(n)|)
  {
    hide ScanNumber, NumberValue, PrintInt;
    var t := PrintNumber(n);
    if n.Int? {
      IntScans(n.i);
      IntDenotes(n.i);
    }
    ScanNumberWithin(inp, p, p + |t|);
    ScanNumberShifted(inp, p, p + |t|);
  }

  // --- Values ---

  predicate Printable(v: Json)
  {
    match v
    case Num(n) => GoodNumber(n)
    case Str(s) => GoodString(s)
    case Arr(items) => forall i :: 0 <= i < |items| ==> Printable(items[i])
    case Obj(ms) => forall i :: 0 <= i < |ms| ==> GoodString(ms[i].key) && Printable(ms[i].value)
    case _ => true
  }

  /** Nesting of containers. */
  predicate Within(v: Json, depth: nat)
  {
    match v
    case Arr(items) => depth > 0 && forall i :: 0 <= i < |items| ==> Within(items[i], depth - 1)
    case Obj(ms) => depth > 0 && forall i :: 0 <= i < |ms| ==> Within(ms[i].value, depth - 1)
    case _ => true
  }

  lemma {:induction false} SkipsOver(inp: Bytes, p: nat, q: nat)
    requires p <= q <= |inp| && forall k :: p <= k < q ==> IsWs(inp[k])
    ensures SkipWs(inp, p) == SkipWs(inp, q)
    decreases q - p
  {
    if p < q { SkipsOver(inp, p + 1, q); }
  }

  lemma SkipsNewLine(o: PrintOptions, depth: nat, inp: Bytes, p: nat)
    requires Holds(inp, p, NewLine(o, depth))
    ensures SkipWs(inp, p) == SkipWs(inp, p + |NewLine(o, depth)|)
  {
    var s := NewLine(o, depth);
    forall k | p <= k < p + |s| ensures IsWs(inp[k]) {
      HoldsAt(inp, p, s, k - p);
    }
    SkipsOver(inp, p, p + |s|);
  }

  lemma ReadValueSkips(inp: Bytes, p: nat, q: nat, d: nat, max: nat)
    requires p <= |inp| && q <= |inp| && SkipWs(inp, p) == SkipWs(inp, q)
    ensures ReadValue(inp, p, d, max) == ReadValue(inp, q, d, max)
  {
  }

  lemma ReadItemsSkips(inp: Bytes, p: nat, q: nat, d: nat, max: nat)
    requires p <= |inp| && q <= |inp| && SkipWs(inp, p) == SkipWs(inp, q)
    ensures ReadItems(inp, p, d, max) == ReadItems(inp, q, d, max)
  {
    hide ReadValue, SkipWs;
    ReadValueSkips(inp, p, q, d, max);
  }

  lemma ReadMembersSkips(inp: Bytes, p: nat, q: nat, d: nat, max: nat)
    requires p <= |inp| && q <= |inp| && SkipWs(inp, p) == SkipWs(inp, q)
    ensures ReadMembers(inp, p, d, max) == ReadMembers(inp, q, d, max)
  {
    hide ReadValue, ReadKey, SkipWs;
    ReadKeySkips(inp, p, q);
  }

  lemma ReadKeySkips(inp: Bytes, p: nat, q: nat)
    requires p <= |inp| && q <= |inp| && SkipWs(inp, p) == SkipWs(inp, q)
    ensures ReadKey(inp, p) == ReadKey(inp, q)
  {
    hide ReadString;
  }

  /** No text of a value begins with whitespace or a closing bracket. */
  lemma FirstByte(v: Json, o: PrintOptions, depth: nat)
    requires Printable(v)
    ensures var t := Print(v, o, depth); t != [] && !IsWs(t[0]) && t[0] != CLOSE_BRACKET
  {
    match v
    case Num(n) => NumberFirst(n);
    case _ =>
  }

  lemma NumberFirst(n: Number)
    requires GoodNumber(n)
    ensures var t := PrintNumber(n); t != [] && (t[0] == MINUS || IsDigit(t[0]))
  {
  }

  lemma WordReads(inp: Bytes, p: nat, word: Bytes, v: Json)
    requires word != [] && Holds(inp, p, word)
    ensures inp[p] == word[0] && ReadWord(inp, p, word, v) == Ok(v, p + |word|)
  {
    HoldsAt(inp, p, word, 0);
  }

  lemma {:induction false} ValueReads(v: Json, o: PrintOptions, depth: nat, inp: Bytes, p: nat, d: nat, max: nat)
    requires Printable(v) && d <= max && Within(v, max - d) && Holds(inp, p, Print(v, o, depth))
    requires var e := p + |Print(v, o, depth)|; v.Num? && e < |inp| ==> !IsNumberChar(inp[e])
    ensures ReadValue(inp, p, d, max) == Ok(v, p + |Print(v, o, depth)|)
    decreases v, 1
  {
    hide ReadString, ReadNumber, PrintItems, PrintMembers, StringBody, ReadItems, ReadMembers;
    var t := Print(v, o, depth);
    FirstByte(v, o, depth);
    HoldsAt(inp, p, t, 0);
    match v
    case Null => WordReads(inp, p, NULL_WORD, v);
    case Bool(b) => WordReads(inp, p, if b then TRUE_WORD else FALSE_WORD, v);
    case Num(n) =>
      NumberFirst(n);
      NumberReads(n, inp, p);
    case Str(s) => StringReads(s, o.escapeUnicode, inp, p);
    case Arr(items) => ArrayReads(items, o, depth, inp, p, d, max);
    case Obj(ms) => ObjectReads(ms, o, depth, inp, p, d, max);
  }

  /** At e, after optional whitespace, stands the given closing bracket. */
  predicate Ends(inp: Bytes, e: nat, bracket: byte)
  {
    && e < |inp|
    && !IsNumberChar(inp[e])
    && SkipWs(inp, e) < |inp|
    && inp[SkipWs(inp, e)] == bracket
  }

  /** A container's last line: whitespace, then its closing bracket. */
  lemma TailEnds(o: PrintOptions, depth: nat, bracket: byte, inp: Bytes, p: nat)
    requires Holds(inp, p, NewLine(o, depth) + [bracket]) && !IsWs(bracket) && !IsNumberChar(bracket)
    ensures Ends(inp, p, bracket) && SkipWs(inp, p) + 1 == p + |NewLine(o, depth) + [bracket]|
  {
    var nl := NewLine(o, depth);
    HoldsParts(inp, p, nl, [bracket]);
    SkipsNewLine(o, depth, inp, p);
    HoldsAt(inp, p + |nl|, [bracket], 0);
    if nl != [] { HoldsAt(inp, p, nl, 0); }
  }

  lemma {:induction false} ArrayReads(
      items: seq<Json>, o: PrintOptions, depth: nat, inp: Bytes, p: nat, d: nat, max: nat)
    requires Printable(Arr(items)) && d <= max && Within(Arr(items), max - d)
    requires Holds(inp, p, Print(Arr(items), o, depth))
    ensures ReadArray(inp, p, d, max) == Ok(Arr(items), p + |Print(Arr(items), o, depth)|)
    decreases items, 1
  {
    hide *;
    PositiveDepth(Arr(items), max - d);
    if items == [] {
      EmptyArrayReads(o, depth, inp, p, d, max);
    } else {
      PrintArray(items, o, depth);
      var body := PrintItems(items, o, depth + 1);
      ContainerParts(inp, p, OPEN_BRACKET, body, o, depth, CLOSE_BRACKET);
      ItemsRead(items, o, depth + 1, inp, p + 1, d + 1, max);
      ItemPrintable(items);
      ItemsStart(items, o, depth + 1, inp, p + 1);
      ReadItemsSkips(inp, p + 1, SkipWs(inp, p + 1), d + 1, max);
      ReadsArray(inp, p, d, max, items, SkipWs(inp, p + 1 + |body|) + 1);
    }
  }

  lemma EmptyArrayReads(o: PrintOptions, depth: nat, inp: Bytes, p: nat, d: nat, max: nat)
    requires d < max && Holds(inp, p, Print(Arr([]), o, depth))
    ensures ReadArray(inp, p, d, max) == Ok(Arr([]), p + |Print(Arr([]), o, depth)|)
  {
    hide ReadItems;
    HoldsAt(inp, p, Print(Arr([]), o, depth), 1);
  }

  lemma PrintArray(items: seq<Json>, o: PrintOptions, depth: nat)
    requires items != []
    ensures Print(Arr(items), o, depth)
         == [OPEN_BRACKET] + PrintItems(items, o, depth + 1) + (NewLine(o, depth) + [CLOSE_BRACKET])
    ensures !IsWs(CLOSE_BRACKET) && !IsNumberChar(CLOSE_BRACKET)
  {
    hide PrintItems, NewLine;
  }

  lemma PositiveDepth(v: Json, depth: nat)
    requires Within(v, depth) && (v.Arr? || v.Obj?)
    ensures depth > 0
  {
  }

  /** The text of a non-empty container: its opening bracket, its contents, its last line. */
  lemma ContainerParts(inp: Bytes, p: nat, open: byte, body: Bytes, o: PrintOptions, depth: nat, shut: byte)
    requires Holds(inp, p, [open] + body + (NewLine(o, depth) + [shut])) && !IsWs(shut) && !IsNumberChar(shut)
    ensures p < |inp| && inp[p] == open && Holds(inp, p + 1, body) && Ends(inp, p + 1 + |body|, shut)
    ensures SkipWs(inp, p + 1 + |body|) + 1 == p + |[open] + body + (NewLine(o, depth) + [shut])|
  {
    hide *;
    var tail := NewLine(o, depth) + [shut];
    HoldsThree(inp, p, [open], body, tail);
    HoldsAt(inp, p, [open], 0);
    TailEnds(o, depth, shut, inp, p + 1 + |body|);
    EndsFacts(inp, p + 1 + |body|, shut);
  }

  lemma ReadsArray(inp: Bytes, p: nat, d: nat, max: nat, items: seq<Json>, end: nat)
    requires p < |inp| && d < max
    requires var j := SkipWs(inp, p + 1);
             j < |inp| && inp[j] != CLOSE_BRACKET && ReadItems(inp, j, d + 1, max) == Ok(items, end)
    ensures ReadArray(inp, p, d, max) == Ok(Arr(items), end)
  {
    hide ReadItems, SkipWs;
  }

  /** Past the opening bracket and whitespace, a non-empty list does not start with the closing bracket. */
  lemma ItemsStart(items: seq<Json>, o: PrintOptions, depth: nat, inp: Bytes, p: nat)
    requires items != [] && Printable(items[0]) && Holds(inp, p, PrintItems(items, o, depth))
    ensures var j := SkipWs(inp, p); j < |inp| && inp[j] != CLOSE_BRACKET
  {
    ItemParts(items, o, depth, inp, p);
    FirstByte(items[0], o, depth);
    HoldsAt(inp, p + |NewLine(o, depth)|, Print(items[0], o, depth), 0);
  }

  lemma ItemParts(items: seq<Json>, o: PrintOptions, depth: nat, inp: Bytes, p: nat)
    requires items != [] && Holds(inp, p, PrintItems(items, o, depth))
    ensures var q := p + |NewLine(o, depth)|;
            var e := q + |Print(items[0], o, depth)|;
            e <= |inp| && SkipWs(inp, p) == SkipWs(inp, q) && Holds(inp, q, Print(items[0], o, depth))
            && (|items| > 1 ==> e < |inp| && inp[e] == COMMA && !IsNumberChar(inp[e]) && SkipWs(inp, e) == e
                                && Holds(inp, e + 1, PrintItems(items[1..], o, depth)))
  {
    var nl, t := NewLine(o, depth), Print(items[0], o, depth);
    var rest := if |items| == 1 then [] else [COMMA] + PrintItems(items[1..], o, depth);
    assert PrintItems(items, o, depth) == nl + t + rest;
    hide *;
    HoldsThree(inp, p, nl, t, rest);
    SkipsNewLine(o, depth, inp, p);
    if |items| > 1 {
      CommaParts(inp, p + |nl| + |t|, PrintItems(items[1..], o, depth));
    }
  }

  /** A comma is where the next element begins. */
  lemma CommaParts(inp: Bytes, e: nat, more: Bytes)
    requires Holds(inp, e, [COMMA] + more)
    ensures e < |inp| && inp[e] == COMMA && SkipWs(inp, e) == e && Holds(inp, e + 1, more)
  {
    HoldsParts(inp, e, [COMMA], more);
    HoldsAt(inp, e, [COMMA], 0);
  }

  lemma {:induction false} ItemsRead(
      items: seq<Json>, o: PrintOptions, depth: nat, inp: Bytes, p: nat, d: nat, max: nat)
    requires items != [] && Printable(Arr(items)) && d < max + 1 && Within(Arr(items), max - d + 1)
    requires Holds(inp, p, PrintItems(items, o, depth))
    requires Ends(inp, p + |PrintItems(items, o, depth)|, CLOSE_BRACKET)
    ensures ReadItems(inp, p, d, max) == Ok(items, SkipWs(inp, p + |PrintItems(items, o, depth)|) + 1)
    decreases items, 0
  {
    hide *;
    var q := p + |NewLine(o, depth)|;
    var e := q + |Print(items[0], o, depth)|;
    ItemsLength(items, o, depth);
    ItemParts(items, o, depth, inp, p);
    ItemPrintable(items);
    ItemsWithin(items, max - d + 1);
    EndsFacts(inp, p + |PrintItems(items, o, depth)|, CLOSE_BRACKET);
    ReadValueSkips(inp, p, q, d, max);
    ValueReads(items[0], o, depth, inp, q, d, max);
    if |items| == 1 {
      ReadsLastItem(inp, p, d, max, items[0], e);
      assert items == [items[0]];
    } else {
      ItemsRead(items[1..], o, depth, inp, e + 1, d, max);
      ReadsMoreItems(inp, p, d, max, items[0], e, items[1..]);
      assert items == [items[0]] + items[1..];
    }
  }

  lemma EndsFacts(inp: Bytes, e: nat, bracket: byte)
    requires Ends(inp, e, bracket)
    ensures e < |inp| && !IsNumberChar(inp[e]) && SkipWs(inp, e) < |inp| && inp[SkipWs(inp, e)] == bracket
  {
  }

  lemma ItemsWithin(items: seq<Json>, depth: nat)
    requires items != [] && Within(Arr(items), depth)
    ensures depth > 0 && Within(items[0], depth - 1) && Within(Arr(items[1..]), depth)
  {
  }

  lemma ItemsLength(items: seq<Json>, o: PrintOptions, depth: nat)
    requires items != []
    ensures |PrintItems(items, o, depth)| == |NewLine(o, depth)| + |Print(items[0], o, depth)|
      + (if |items| == 1 then 0 else 1 + |PrintItems(items[1..], o, depth)|)
  {
    hide Print, NewLine;
  }

  lemma ReadsLastItem(inp: Bytes, p: nat, d: nat, max: nat, v: Json, e: nat)
    requires p <= |inp| && e <= |inp| && ReadValue(inp, p, d, max) == Ok(v, e)
    requires SkipWs(inp, e) < |inp| && inp[SkipWs(inp, e)] == CLOSE_BRACKET
    ensures ReadItems(inp, p, d, max) == Ok([v], SkipWs(inp, e) + 1)
  {
    hide ReadValue, SkipWs;
  }

  lemma ReadsMoreItems(inp: Bytes, p: nat, d: nat, max: nat, v: Json, e: nat, rest: seq<Json>)
    requires p <= |inp| && e <= |inp| && ReadValue(inp, p, d, max) == Ok(v, e)
    requires SkipWs(inp, e) < |inp| && inp[SkipWs(inp, e)] == COMMA
    requires var r := ReadItems(inp, SkipWs(inp, e) + 1, d, max); r.Ok? && r.value == rest
    ensures ReadItems(inp, p, d, max) == Ok([v] + rest, ReadItems(inp, SkipWs(inp, e) + 1, d, max).pos)
  {
    hide ReadValue, SkipWs;
  }

  lemma ItemPrintable(items: seq<Json>)
    requires items != [] && Printable(Arr(items))
    ensures Printable(items[0]) && Printable(Arr(items[1..]))
  {
  }

  // --- Objects ---

  /** The key of a member, its separator and where its value stands. */
  lemma MemberParts(m: Member, o: PrintOptions, depth: nat, inp: Bytes, p: nat)
    requires GoodString(m.key) && Holds(inp, p, PrintMember(m, o, depth))
    ensures var q := p + |PrintMember(m, o, depth)| - |Print(m.value, o, depth)|;
            q <= |inp| && Holds(inp, q, Print(m.value, o, depth))
            && exists c :: p < c <= q && ReadKey(inp, p) == Ok(m.key, c) && SkipWs(inp, c) == SkipWs(inp, q)
    ensures var j := SkipWs(inp, p); j < |inp| && inp[j] == QUOTE
  {
    PrintedMember(m, o, depth);
    hide *;
    var nl, k := NewLine(o, depth), PrintString(m.key, o.escapeUnicode);
    var sep, t := KeySeparator(o), Print(m.value, o, depth);
    HoldsThree(inp, p, nl, k, sep + t);
    HoldsParts(inp, p + |nl| + |k|, sep, t);
    SkipsNewLine(o, depth, inp, p);
    StringReads(m.key, o.escapeUnicode, inp, p + |nl|);
    SeparatorReads(inp, p + |nl| + |k|, sep);
    KeyReads(inp, p, p + |nl|, m.key, p + |nl| + |k|);
  }

  lemma PrintedMember(m: Member, o: PrintOptions, depth: nat)
    ensures PrintMember(m, o, depth)
         == NewLine(o, depth) + PrintString(m.key, o.escapeUnicode) + (KeySeparator(o) + Print(m.value, o, depth))
    ensures |PrintString(m.key, o.escapeUnicode)| >= 2
    ensures var sep := KeySeparator(o); 1 <= |sep| <= 2 && sep[0] == COLON && (|sep| == 2 ==> sep[1] == SPACE)
  {
    hide Print, NewLine, StringBody;
  }

  lemma SeparatorReads(inp: Bytes, e: nat, sep: Bytes)
    requires Holds(inp, e, sep) && 1 <= |sep| <= 2 && sep[0] == COLON && (|sep| == 2 ==> sep[1] == SPACE)
    ensures e < |inp| && inp[e] == COLON && SkipWs(inp, e) == e && e + |sep| <= |inp|
    ensures SkipWs(inp, e + 1) == SkipWs(inp, e + |sep|)
  {
    HoldsAt(inp, e, sep, 0);
    if |sep| == 2 { HoldsAt(inp, e, sep, 1); }
  }

  lemma KeyReads(inp: Bytes, p: nat, q: nat, key: Bytes, e: nat)
    requires p <= q < e < |inp| && SkipWs(inp, p) == SkipWs(inp, q) && inp[q] == QUOTE
    requires ReadString(inp, q + 1) == Ok(key, e) && inp[e] == COLON && SkipWs(inp, e) == e
    ensures ReadKey(inp, p) == Ok(key, e + 1) && SkipWs(inp, p) == q
  {
    hide ReadString;
  }

  lemma MembersParts(ms: seq<Member>, o: PrintOptions, depth: nat, inp: Bytes, p: nat)
    requires ms != [] && Holds(inp, p, PrintMembers(ms, o, depth))
    ensures var e := p + |PrintMember(ms[0], o, depth)|;
            e <= |inp| && Holds(inp, p, PrintMember(ms[0], o, depth))
            && (|ms| > 1 ==> e < |inp| && inp[e] == COMMA && !IsNumberChar(inp[e]) && SkipWs(inp, e) == e
                             && Holds(inp, e + 1, PrintMembers(ms[1..], o, depth)))
  {
    var t := PrintMember(ms[0], o, depth);
    var rest := if |ms| == 1 then [] else [COMMA] + PrintMembers(ms[1..], o, depth);
    assert PrintMembers(ms, o, depth) == t + rest;
    assert !IsNumberChar(COMMA);
    hide *;
    HoldsParts(inp, p, t, rest);
    HoldsFits(inp, p, t);
    if |ms| > 1 {
      CommaParts(inp, p + |t|, PrintMembers(ms[1..], o, depth));
    }
  }

  lemma MembersLength(ms: seq<Member>, o: PrintOptions, depth: nat)
    requires ms != []
    ensures |PrintMembers(ms, o, depth)|
         == |PrintMember(ms[0], o, depth)| + (if |ms| == 1 then 0 else 1 + |PrintMembers(ms[1..], o, depth)|)
    ensures |PrintMember(ms[0], o, depth)| >= |Print(ms[0].value, o, depth)|
  {
    hide Print, NewLine, PrintString;
  }

  lemma ReadsLastMember(inp: Bytes, p: nat, d: nat, max: nat, m: Member, e: nat)
    requires p <= |inp| && e <= |inp| && ReadKey(inp, p).Ok? && ReadKey(inp, p).value == m.key
    requires ReadValue(inp, ReadKey(inp, p).pos, d, max) == Ok(m.value, e)
    requires SkipWs(inp, e) < |inp| && inp[SkipWs(inp, e)] == CLOSE_BRACE
    ensures ReadMembers(inp, p, d, max) == Ok([m], SkipWs(inp, e) + 1)
  {
    hide ReadValue, SkipWs, ReadKey;
  }

  lemma ReadsMoreMembers(inp: Bytes, p: nat, d: nat, max: nat, m: Member, e: nat, rest: seq<Member>)
    requires p <= |inp| && e <= |inp| && ReadKey(inp, p).Ok? && ReadKey(inp, p).value == m.key
    requires ReadValue(inp, ReadKey(inp, p).pos, d, max) == Ok(m.value, e)
    requires SkipWs(inp, e) < |inp| && inp[SkipWs(inp, e)] == COMMA
    requires var r := ReadMembers(inp, SkipWs(inp, e) + 1, d, max); r.Ok? && r.value == rest
    ensures ReadMembers(inp, p, d, max) == Ok([m] + rest, ReadMembers(inp, SkipWs(inp, e) + 1, d, max).pos)
  {
    hide ReadValue, SkipWs, ReadKey;
  }

  lemma MembersPrintable(ms: seq<Member>, depth: nat)
    requires ms != [] && Printable(Obj(ms)) && Within(Obj(ms), depth)
    ensures GoodString(ms[0].key) && Printable(ms[0].value) && Printable(Obj(ms[1..]))
    ensures depth > 0 && Within(ms[0].value, depth - 1) && Within(Obj(ms[1..]), depth)
  {
    hide GoodString;
  }

  lemma {:induction false} MembersRead(
      ms: seq<Member>, o: PrintOptions, depth: nat, inp: Bytes, p: nat, d: nat, max: nat)
    requires ms != [] && Printable(Obj(ms)) && d < max + 1 && Within(Obj(ms), max - d + 1)
    requires Holds(inp, p, PrintMembers(ms, o, depth))
    requires Ends(inp, p + |PrintMembers(ms, o, depth)|, CLOSE_BRACE)
    ensures ReadMembers(inp, p, d, max) == Ok(ms, SkipWs(inp, p + |PrintMembers(ms, o, depth)|) + 1)
    decreases ms, 0
  {
    hide *;
    var m := ms[0];
    var e := p + |PrintMember(m, o, depth)|;
    var q := e - |Print(m.value, o, depth)|;
    MembersLength(ms, o, depth);
    MembersParts(ms, o, depth, inp, p);
    MembersPrintable(ms, max - d + 1);
    MemberParts(m, o, depth, inp, p);
    EndsFacts(inp, p + |PrintMembers(ms, o, depth)|, CLOSE_BRACE);
    ReadValueSkips(inp, ReadKey(inp, p).pos, q, d, max);
    ValueReads(m.value, o, depth, inp, q, d, max);
    if |ms| == 1 {
      ReadsLastMember(inp, p, d, max, m, e);
      assert ms == [m];
    } else {
      MembersRead(ms[1..], o, depth, inp, e + 1, d, max);
      ReadsMoreMembers(inp, p, d, max, m, e, ms[1..]);
      assert ms == [m] + ms[1..];
    }
  }

  lemma ReadsObject(inp: Bytes, p: nat, d: nat, max: nat, ms: seq<Member>, end: nat)
    requires p < |inp| && d < max
    requires var j := SkipWs(inp, p + 1);
             j < |inp| && inp[j] != CLOSE_BRACE && ReadMembers(inp, j, d + 1, max) == Ok(ms, end)
    ensures ReadObject(inp, p, d, max) == Ok(Obj(ms), end)
  {
    hide ReadMembers, SkipWs;
  }

  lemma {:induction false} ObjectReads(
      ms: seq<Member>, o: PrintOptions, depth: nat, inp: Bytes, p: nat, d: nat, max: nat)
    requires Printable(Obj(ms)) && d <= max && Within(Obj(ms), max - d)
    requires Holds(inp, p, Print(Obj(ms), o, depth))
    ensures ReadObject(inp, p, d, max) == Ok(Obj(ms), p + |Print(Obj(ms), o, depth)|)
    decreases ms, 1
  {
    hide *;
    PositiveDepth(Obj(ms), max - d);
    if ms == [] {
      EmptyObjectReads(o, depth, inp, p, d, max);
    } else {
      PrintObject(ms, o, depth);
      var body := PrintMembers(ms, o, depth + 1);
      ContainerParts(inp, p, OPEN_BRACE, body, o, depth, CLOSE_BRACE);
      MembersRead(ms, o, depth + 1, inp, p + 1, d + 1, max);
      MembersParts(ms, o, depth + 1, inp, p + 1);
      MembersPrintable(ms, max - d);
      MemberParts(ms[0], o, depth + 1, inp, p + 1);
      ReadMembersSkips(inp, p + 1, SkipWs(inp, p + 1), d + 1, max);
      ReadsObject(inp, p, d, max, ms, SkipWs(inp, p + 1 + |body|) + 1);
    }
  }

  lemma EmptyObjectReads(o: PrintOptions, depth: nat, inp: Bytes, p: nat, d: nat, max: nat)
    requires d < max && Holds(inp, p, Print(Obj([]), o, depth))
    ensures ReadObject(inp, p, d, max) == Ok(Obj([]), p + |Print(Obj([]), o, depth)|)
  {
    hide ReadMembers;
    HoldsAt(inp, p, Print(Obj([]), o, depth), 1);
  }

  lemma PrintObject(ms: seq<Member>, o: PrintOptions, depth: nat)
    requires ms != []
    ensures Print(Obj(ms), o, depth)
         == [OPEN_BRACE] + PrintMembers(ms, o, depth + 1) + (NewLine(o, depth) + [CLOSE_BRACE])
    ensures !IsWs(CLOSE_BRACE) && !IsNumberChar(CLOSE_BRACE) && QUOTE != CLOSE_BRACE
  {
    hide PrintMembers, NewLine;
  }

  // --- Key order ---

  lemma {:induction false} InsertLookup(m: Member, ms: seq<Member>)
    requires UniqueMembers(ms) && !HasKey(ms, m.key)
    ensures UniqueMembers(InsertByKey(m, ms))
    ensures forall k :: GetMember(InsertByKey(m, ms), k) == if k == m.key then Some(m.value) else GetMember(ms, k)
    ensures forall x :: x in InsertByKey(m, ms) <==> x == m || x in ms
    decreases |ms|
  {
    if ms == [] || KeyLess(m.key, ms[0].key) {
      forall k ensures GetMember([m] + ms, k) == if k == m.key then Some(m.value) else GetMember(ms, k) {
        HeadLookup(m, ms, k);
      }
    } else {
      assert ms == [ms[0]] + ms[1..];
      HeadLookup(ms[0], ms[1..], m.key);
      InsertLookup(m, ms[1..]);
      var r := InsertByKey(m, ms[1..]);
      forall k ensures GetMember([ms[0]] + r, k) == if k == m.key then Some(m.value) else GetMember(ms, k) {
        HeadLookup(ms[0], r, k);
        HeadLookup(ms[0], ms[1..], k);
      }
      forall j | 0 <= j < |r| ensures r[j].key != ms[0].key {
        assert r[j] in r;
      }
    }
  }

  lemma HeadLookup(x: Member, rest: seq<Member>, k: Bytes)
    ensures GetMember([x] + rest, k) == if x.key == k then Some(x.value) else GetMember(rest, k)
    ensures HasKey([x] + rest, k) <==> x.key == k || HasKey(rest, k)
  {
    assert ([x] + rest)[1..] == rest;
  }

  /** Sorting rearranges the members and keeps what is under each key. */
  lemma {:induction false} SortLookup(ms: seq<Member>)
    requires UniqueMembers(ms)
    ensures UniqueMembers(SortByKey(ms))
    ensures forall k :: GetMember(SortByKey(ms), k) == GetMember(ms, k)
    ensures forall x :: x in SortByKey(ms) <==> x in ms
    decreases |ms|
  {
    if ms != [] {
      var front, last := ms[..|ms| - 1], ms[|ms| - 1];
      assert ms == front + [last];
      SortLookup(front);
      assert !HasKey(front, last.key);
      assert GetMember(SortByKey(front), last.key) == None;
      InsertLookup(last, SortByKey(front));
      forall k ensures GetMember(ms, k) == if k == last.key then Some(last.value) else GetMember(front, k) {
        LookupInAppend(front, last, k);
      }
    }
  }

  lemma {:induction false} LookupInAppend(front: seq<Member>, last: Member, k: Bytes)
    ensures GetMember(front + [last], k)
         == if HasKey(front, k) then GetMember(front, k) else if k == last.key then Some(last.value) else None
    decreases |front|
  {
    if front != [] {
      assert (front + [last])[1..] == front[1..] + [last];
      LookupInAppend(front[1..], last, k);
    }
  }

  predicate InKeyOrder(ms: seq<Member>)
  {
    forall i, j :: 0 <= i < j < |ms| ==> !KeyLess(ms[j].key, ms[i].key)
  }

  lemma {:induction false} InsertIsPermutation(m: Member, ms: seq<Member>)
    ensures multiset(InsertByKey(m, ms)) == multiset(ms) + multiset{m}
    decreases |ms|
  {
    hide KeyLess;
    if ms != [] && !KeyLess(m.key, ms[0].key) {
      InsertIsPermutation(m, ms[1..]);
      assert ms == [ms[0]] + ms[1..];
    }
  }

  lemma {:induction false} InsertKeepsOrder(m: Member, ms: seq<Member>)
    requires InKeyOrder(ms)
    ensures InKeyOrder(InsertByKey(m, ms))
    decreases |ms|
  {
    hide KeyLess;
    if ms == [] {
    } else if KeyLess(m.key, ms[0].key) {
      forall j | 0 <= j < |ms| ensures !KeyLess(ms[j].key, m.key) {
        KeyLessOrder(m.key, ms[0].key, ms[j].key);
      }
    } else {
      InsertKeepsOrder(m, ms[1..]);
      InsertIsPermutation(m, ms[1..]);
      var r := InsertByKey(m, ms[1..]);
      forall j | 0 <= j < |r| ensures !KeyLess(r[j].key, ms[0].key) {
        assert r[j] in multiset(r);
      }
    }
  }

  /** If a is below b, and c is not below b, then c is not below a. */
  lemma {:induction false} KeyLessOrder(a: Bytes, b: Bytes, c: Bytes)
    requires KeyLess(a, b) && (c == b || !KeyLess(c, b))
    ensures !KeyLess(c, a)
    decreases |a| + |b| + |c|
  {
    if c != [] && a != [] && c[0] == a[0] {
      if b[0] == a[0] {
        if c == b { assert c[1..] == b[1..]; }
        KeyLessOrder(a[1..], b[1..], c[1..]);
      }
    }
  }

  /** a is a proper prefix of b, or has the smaller byte where they first differ. */
  predicate Precedes(a: Bytes, b: Bytes)
  {
    || (|a| < |b| && b[..|a|] == a)
    || exists i :: 0 <= i < |a| && i < |b| && a[i] < b[i] && a[..i] == b[..i]
  }

  lemma {:induction false} KeyLessIsPrecedes(a: Bytes, b: Bytes)
    ensures KeyLess(a, b) <==> Precedes(a, b)
    decreases |a|
  {
    if a != [] && b != [] && a[0] == b[0] {
      KeyLessIsPrecedes(a[1..], b[1..]);
      PrecedesAfter(a, b);
    } else if a != [] && b != [] && a[0] < b[0] {
      assert a[..0] == b[..0];
    } else if a != [] && b != [] {
      forall i | 0 < i <= |a| && i <= |b| ensures a[..i] != b[..i] { assert a[..i][0] != b[..i][0]; }
    }
  }

  lemma PrecedesAfter(a: Bytes, b: Bytes)
    requires a != [] && b != [] && a[0] == b[0]
    ensures Precedes(a, b) <==> Precedes(a[1..], b[1..])
  {
    PrefixAfter(a, b);
    if i :| 0 <= i < |a| && i < |b| && a[i] < b[i] && a[..i] == b[..i] { DiffersAfter(a, b, i); }
    if i :| 0 <= i < |a[1..]| && i < |b[1..]| && a[1..][i] < b[1..][i] && a[1..][..i] == b[1..][..i] {
      DiffersBefore(a, b, i);
    }
  }

  lemma PrefixAfter(a: Bytes, b: Bytes)
    requires a != [] && b != [] && a[0] == b[0]
    ensures |a| < |b| && b[..|a|] == a <==> |a[1..]| < |b[1..]| && b[1..][..|a| - 1] == a[1..]
  {
    if |a| < |b| {
      assert b[1..][..|a| - 1] == b[..|a|][1..];
      assert b[..|a|] == [b[0]] + b[1..][..|a| - 1] && a == [a[0]] + a[1..];
    }
  }

  lemma DiffersAfter(a: Bytes, b: Bytes, i: nat)
    requires a != [] && b != [] && a[0] == b[0] && i < |a| && i < |b| && a[i] < b[i] && a[..i] == b[..i]
    ensures Precedes(a[1..], b[1..])
  {
    assert a[1..][..i - 1] == a[..i][1..] && b[1..][..i - 1] == b[..i][1..];
    assert a[1..][i - 1] < b[1..][i - 1];
  }

  lemma DiffersBefore(a: Bytes, b: Bytes, i: nat)
    requires a != [] && b != [] && a[0] == b[0]
    requires i < |a[1..]| && i < |b[1..]| && a[1..][i] < b[1..][i] && a[1..][..i] == b[1..][..i]
    ensures Precedes(a, b)
  {
    assert a[..i + 1] == [a[0]] + a[1..][..i] && b[..i + 1] == [b[0]] + b[1..][..i];
    assert a[i + 1] < b[i + 1];
  }

  /** With sort_keys the members come out in the order of their bytes, each exactly once. */
  lemma SortedAndPermuted(ms: seq<Member>)
    ensures var r := SortByKey(ms);
            && multiset(r) == multiset(ms)
            && (forall i, j :: 0 <= i < j < |r| ==> r[i].key == r[j].key || Precedes(r[i].key, r[j].key))
  {
    var r := SortByKey(ms);
    SortsInKeyOrder(ms);
    forall i, j | 0 <= i < j < |r| ensures r[i].key == r[j].key || Precedes(r[i].key, r[j].key) {
      KeyLessTotal(r[i].key, r[j].key);
      KeyLessIsPrecedes(r[i].key, r[j].key);
    }
  }

  lemma {:induction false} KeyLessTotal(a: Bytes, b: Bytes)
    ensures a == b || KeyLess(a, b) || KeyLess(b, a)
    decreases |a|
  {
    if a != [] && b != [] && a[0] == b[0] {
      KeyLessTotal(a[1..], b[1..]);
      assert a == [a[0]] + a[1..] && b == [b[0]] + b[1..];
    }
  }

  lemma {:induction false} KeyLessIrreflexive(a: Bytes)
    ensures !KeyLess(a, a)
    decreases |a|
  {
    if a != [] { KeyLessIrreflexive(a[1..]); }
  }

  lemma {:induction false} KeyLessAsymmetric(a: Bytes, b: Bytes)
    ensures !(KeyLess(a, b) && KeyLess(b, a))
    decreases |a|
  {
    if a != [] && b != [] && a[0] == b[0] { KeyLessAsymmetric(a[1..], b[1..]); }
  }

  lemma {:induction false} SortsInKeyOrder(ms: seq<Member>)
    ensures InKeyOrder(SortByKey(ms)) && multiset(SortByKey(ms)) == multiset(ms)
    decreases |ms|
  {
    hide InsertByKey;
    if ms != [] {
      var front, last := ms[..|ms| - 1], ms[|ms| - 1];
      assert ms == front + [last];
      SortsInKeyOrder(front);
      InsertKeepsOrder(last, SortByKey(front));
      InsertIsPermutation(last, SortByKey(front));
    }
  }

  lemma {:induction false} ArrangedEach(ms: seq<Member>, sort: bool)
    ensures var r := ArrangedMembers(ms, sort);
            forall i :: 0 <= i < |ms| ==> r[i] == Member(ms[i].key, Arranged(ms[i].value, sort))
  {
    if ms != [] { ArrangedEach(ms[1..], sort); }
  }

  lemma {:induction false} ArrangedEachItem(items: seq<Json>, sort: bool)
    ensures var r := ArrangedItems(items, sort); forall i :: 0 <= i < |items| ==> r[i] == Arranged(items[i], sort)
  {
    if items != [] { ArrangedEachItem(items[1..], sort); }
  }

  lemma ArrangeMembership(ms: seq<Member>, sort: bool)
    ensures forall x :: x in Arrange(ms, sort) <==> x in ms
  {
    SortsInKeyOrder(ms);
    forall x ensures x in Arrange(ms, sort) <==> x in ms {
      assert x in SortByKey(ms) <==> x in multiset(SortByKey(ms));
      assert x in ms <==> x in multiset(ms);
    }
  }

  /** Without sorting nothing is rearranged. */
  lemma {:induction false} Unsorted(v: Json)
    ensures Arranged(v, false) == v
    decreases v
  {
    match v
    case Arr(items) =>
      ArrangedEachItem(items, false);
      forall i | 0 <= i < |items| ensures ArrangedItems(items, false)[i] == items[i] { Unsorted(items[i]); }
    case Obj(ms) =>
      ArrangedEach(ms, false);
      forall i | 0 <= i < |ms| ensures ArrangedMembers(ms, false)[i] == ms[i] { Unsorted(ms[i].value); }
    case _ =>
  }

  lemma {:induction false} ArrangedIsPrintable(v: Json, sort: bool, depth: nat)
    requires Printable(v) && Within(v, depth)
    ensures Printable(Arranged(v, sort)) && Within(Arranged(v, sort), depth)
    decreases v, 1
  {
    hide GoodString, GoodNumber, Arrange;
    match v
    case Arr(items) =>
      ArrangedEachItem(items, sort);
      forall i | 0 <= i < |items|
        ensures Printable(Arranged(items[i], sort)) && Within(Arranged(items[i], sort), depth - 1)
      {
        ArrangedIsPrintable(items[i], sort, depth - 1);
      }
    case Obj(ms) =>
      assert AllGood(ms, depth - 1);
      ArrangedMembersPrintable(ms, sort, depth - 1);
      GoodMembers(Arrange(ArrangedMembers(ms, sort), sort), depth);
    case _ =>
  }

  lemma GoodMembers(r: seq<Member>, depth: nat)
    requires depth > 0 && AllGood(r, depth - 1)
    ensures Printable(Obj(r)) && Within(Obj(r), depth)
  {
    hide GoodString;
    forall j | 0 <= j < |r| ensures GoodString(r[j].key) && Printable(r[j].value) && Within(r[j].value, depth - 1) {
      assert GoodMember(r[j], depth - 1);
    }
  }

  predicate GoodMember(m: Member, depth: nat) { GoodString(m.key) && Printable(m.value) && Within(m.value, depth) }

  predicate AllGood(ms: seq<Member>, depth: nat) { forall i :: 0 <= i < |ms| ==> GoodMember(ms[i], depth) }

  lemma {:induction false} ArrangedMembersPrintable(ms: seq<Member>, sort: bool, depth: nat)
    requires AllGood(ms, depth)
    ensures AllGood(Arrange(ArrangedMembers(ms, sort), sort), depth)
    decreases ms, 0
  {
    hide GoodString, Printable, Within, Arrange;
    ArrangedEach(ms, sort);
    var mid := ArrangedMembers(ms, sort);
    forall i | 0 <= i < |ms| ensures GoodMember(mid[i], depth) {
      assert GoodMember(ms[i], depth);
      ArrangedIsPrintable(ms[i].value, sort, depth);
    }
    ArrangeMembership(mid, sort);
    var r := Arrange(mid, sort);
    forall j | 0 <= j < |r| ensures GoodMember(r[j], depth) {
      assert r[j] in mid;
    }
  }

  /** Up to the order of members the arranged tree is the tree. */
  lemma {:induction false} ArrangedEquals(v: Json, sort: bool)
    requires Unique(v)
    ensures Equals(Arranged(v, sort), v)
    decreases v
  {
    hide Arrange;
    match v
    case Arr(items) =>
      ArrangedEachItem(items, sort);
      forall i | 0 <= i < |items| ensures Equals(Arranged(items[i], sort), items[i]) { ArrangedEquals(items[i], sort); }
    case Obj(ms) =>
      forall i | 0 <= i < |ms| ensures Equals(Arranged(ms[i].value, sort), ms[i].value) {
        ArrangedEquals(ms[i].value, sort);
      }
      ArrangedMembersEqual(ms, sort);
    case _ => EqualsReflexive(v);
  }

  lemma ArrangedMembersEqual(ms: seq<Member>, sort: bool)
    requires UniqueMembers(ms) && forall i :: 0 <= i < |ms| ==> Equals(Arranged(ms[i].value, sort), ms[i].value)
    ensures Equals(Obj(Arrange(ArrangedMembers(ms, sort), sort)), Obj(ms))
  {
    hide SortByKey, Equals, Arranged;
    ArrangedEach(ms, sort);
    var mid := ArrangedMembers(ms, sort);
    var r := Arrange(mid, sort);
    SortLookup(mid);
    forall k ensures FindKey(mid, k) == FindKey(ms, k) { SameKeysFound(mid, ms, k); }
    forall k ensures HasKey(r, k) <==> HasKey(ms, k) {
      assert GetMember(r, k) == GetMember(mid, k);
    }
    forall i | 0 <= i < |r| && HasKey(ms, r[i].key) ensures Equals(r[i].value, GetMember(ms, r[i].key).value) {
      FindUnique(r, i);
      var j := FindKey(ms, r[i].key);
      assert GetMember(r, r[i].key) == GetMember(mid, r[i].key);
      assert r[i].value == mid[j].value;
    }
    SameMembersEqual(r, ms);
  }

  lemma {:induction false} SameKeysFound(a: seq<Member>, b: seq<Member>, k: Bytes)
    requires |a| == |b| && forall i :: 0 <= i < |a| ==> a[i].key == b[i].key
    ensures FindKey(a, k) == FindKey(b, k)
    decreases |a|
  {
    if a != [] { SameKeysFound(a[1..], b[1..], k); }
  }

  // --- Documents ---

  lemma NoBom(v: Json, o: PrintOptions)
    requires Printable(v)
    ensures BomLength(Print(v, o, 0)) == 0
  {
    var t := Print(v, o, 0);
    if t[..if |t| < 3 then |t| else 3] == BOM { assert t[0] == t[..3][0]; }
    match v
    case Num(n) => NumberFirst(n);
    case _ =>
  }

  /** Parsing the serializer's output, whatever the options, gives the tree in the order written. */
  lemma SerializeThenParse(v: Json, o: PrintOptions, max: nat)
    requires Printable(v) && Within(v, max)
    ensures ReadDocument(Serialize(v, o), max) == Some(Arranged(v, o.sortKeys))
    ensures !o.sortKeys ==> ReadDocument(Serialize(v, o), max) == Some(v)
    ensures Unique(v) ==> Equals(Arranged(v, o.sortKeys), v)
  {
    hide *;
    var w := Arranged(v, o.sortKeys);
    ArrangedIsPrintable(v, o.sortKeys, max);
    if !o.sortKeys { Unsorted(v); }
    if Unique(v) { ArrangedEquals(v, o.sortKeys); }
    SerializedText(v, o);
    var t := Serialize(v, o);
    NoBom(w, o);
    HoldsWhole(t);
    ValueReads(w, o, 0, t, 0, 0, max);
    WholeDocument(t, max, w);
  }

  lemma SerializedText(v: Json, o: PrintOptions)
    ensures Serialize(v, o) == Print(Arranged(v, o.sortKeys), o, 0)
  {
  }

  lemma HoldsWhole(t: Bytes)
    ensures Holds(t, 0, t)
  {
  }

  lemma WholeDocument(t: Bytes, max: nat, v: Json)
    requires BomLength(t) == 0 && ReadValue(t, 0, 0, max) == Ok(v, |t|)
    ensures ReadDocument(t, max) == Some(v)
  {
    hide ReadValue;
  }
}
