/** Loosely written JSON with the bytes written out: what may stand for a value, where, and what it denotes. */
module LooseText {
  import opened Bytes
  import opened Options
  import opened JsonValue
  import opened Grammar
  import Decimal
  import Utf8
  import RepairSpec

  type Kind = RepairSpec.Kind

  // --- Bare words ---

  /** true, True, TRUE. */
  const TRUES: seq<Bytes> := [[0x74, 0x72, 0x75, 0x65], [0x54, 0x72, 0x75, 0x65], [0x54, 0x52, 0x55, 0x45]]
  /** false, False, FALSE. */
  const FALSES: seq<Bytes> :=
    [[0x66, 0x61, 0x6C, 0x73, 0x65], [0x46, 0x61, 0x6C, 0x73, 0x65], [0x46, 0x41, 0x4C, 0x53, 0x45]]
  /** null, None, NULL, Null, nil, undefined, NaN, Infinity. */
  const NULLS: seq<Bytes> :=
    [[0x6E, 0x75, 0x6C, 0x6C], [0x4E, 0x6F, 0x6E, 0x65], [0x4E, 0x55, 0x4C, 0x4C], [0x4E, 0x75, 0x6C, 0x6C],
     [0x6E, 0x69, 0x6C], [0x75, 0x6E, 0x64, 0x65, 0x66, 0x69, 0x6E, 0x65, 0x64], [0x4E, 0x61, 0x4E],
     [0x49, 0x6E, 0x66, 0x69, 0x6E, 0x69, 0x74, 0x79]]

  predicate Alpha(c: byte) { 0x41 <= c <= 0x5A || 0x61 <= c <= 0x7A }

  predicate WordStart(c: byte) { Alpha(c) || c == 0x5F || c == 0x24 || c >= 0x80 }

  predicate WordByte(c: byte) { WordStart(c) || 0x30 <= c <= 0x39 || c == 0x2D || c == 0x2E }

  /** Plain characters that make a bare word. */
  predicate GoodWord(cs: seq<Char>)
  {
    && GoodChars(cs) && (forall i :: 0 <= i < |cs| ==> cs[i].Plain?)
    && CharsText(cs) != [] && WordStart(CharsText(cs)[0])
    && forall i :: 0 <= i < |CharsText(cs)| ==> WordByte(CharsText(cs)[i])
  }

  function WordSays(w: Bytes): Json
  {
    if w in TRUES then Bool(true) else if w in FALSES then Bool(false) else if w in NULLS then Null else Str(w)
  }

  /** The first spelling of each table is the one of JSON. */
  function WordFlaws(w: Bytes): seq<Kind>
  {
    if w == TRUES[0] || w == FALSES[0] || w == NULLS[0] then []
    else if w in TRUES || w in FALSES || w in NULLS then [RepairSpec.Literal]
    else [RepairSpec.Quotes]
  }

  // --- Quoted literals ---

  /** A character of JSON, an escaped delimiter, an escaped line end, a backslash that escapes nothing,
      a control character, or a double quote between other delimiters. */
  datatype Piece = Same(c: Char) | Delimiter | LineEnd | Stray(text: Bytes) | Control(b: byte) | DoubleQuote

  predicate GoodPiece(p: Piece, quote: byte)
  {
    match p
    case Same(c) => GoodChar(c) && (c.Plain? ==> c.text[0] != quote)
    case Stray(s) => Utf8.IsUtf8Char(s) && s[0] >= 0x20 && s[0] != quote && s[0] != 0x75 && s[0] !in LETTERS
    case Control(b) => b < 0x20
    case LineEnd => true
    case _ => quote != 0x22
  }

  function PieceText(p: Piece, quote: byte): Bytes
    requires GoodPiece(p, quote)
  {
    match p
    case Same(c) => CharText(c)
    case Delimiter => [0x5C, quote]
    case LineEnd => [0x5C, 0x0A]
    case Stray(s) => [0x5C] + s
    case Control(b) => [b]
    case DoubleQuote => [0x22]
  }

  function PieceSays(p: Piece, quote: byte): Bytes
    requires GoodPiece(p, quote)
  {
    match p
    case Same(c) => CharMeans(c)
    case Delimiter => [quote]
    case LineEnd => []
    case Stray(s) => [0x5C] + s
    case Control(b) => [b]
    case DoubleQuote => [0x22]
  }

  function PieceFlaws(p: Piece): seq<Kind>
  {
    if p.LineEnd? || p.Stray? || p.Control? then [RepairSpec.EscapeSyntax] else []
  }

  predicate GoodPieces(ps: seq<Piece>, quote: byte) { forall i :: 0 <= i < |ps| ==> GoodPiece(ps[i], quote) }

  function PiecesText(ps: seq<Piece>, quote: byte): Bytes
    requires GoodPieces(ps, quote)
  {
    if ps == [] then [] else PieceText(ps[0], quote) + PiecesText(ps[1..], quote)
  }

  function PiecesSay(ps: seq<Piece>, quote: byte): Bytes
    requires GoodPieces(ps, quote)
  {
    if ps == [] then [] else PieceSays(ps[0], quote) + PiecesSay(ps[1..], quote)
  }

  function PiecesFlaws(ps: seq<Piece>): seq<Kind>
  {
    if ps == [] then [] else PieceFlaws(ps[0]) + PiecesFlaws(ps[1..])
  }

  // --- Tokens that look like numbers ---

  /** What stands after 0x: a sign, a second 0x and digits in either case. */
  datatype HexDigits = HexDigits(sign: Option<byte>, mark: Option<byte>, digits: seq<nat>, caps: seq<bool>)

  datatype Numeral =
    | Exact(n: NumberToken)
    | Infinite(s: byte)
    | Hex(sign: Option<byte>, mark: byte, hex: HexDigits, rest: Bytes)
    | Off(sign: Option<byte>, zeros: nat, lead: bool, body: Bytes, points: seq<nat>, rest: Bytes, n: NumberToken)

  predicate IsSign(s: byte) { s == 0x2B || s == 0x2D }

  predicate MaybeSign(s: Option<byte>) { s.Some? ==> IsSign(s.value) }

  /** Bytes of which a token that looks like a number is made. */
  predicate RunByte(c: byte) { Alpha(c) || 0x30 <= c <= 0x39 || IsSign(c) || c == 0x2E }

  predicate RunBytes(t: Bytes) { forall i :: 0 <= i < |t| ==> RunByte(t[i]) }

  predicate IsMark(c: byte) { c == 0x78 || c == 0x58 }

  predicate GoodHex(h: HexDigits)
  {
    && MaybeSign(h.sign) && (h.mark.Some? ==> IsMark(h.mark.value)) && h.digits != [] && |h.caps| == |h.digits|
    && forall i :: 0 <= i < |h.digits| ==> h.digits[i] < 16
  }

  function DigitsText(digits: seq<nat>, caps: seq<bool>): (r: Bytes)
    requires |caps| == |digits| && forall i :: 0 <= i < |digits| ==> digits[i] < 16
    ensures |r| == |digits| && forall i :: 0 <= i < |digits| ==> r[i] == Digit(digits[i], caps[i])
  {
    seq(|digits|, i requires 0 <= i < |digits| => Digit(digits[i], caps[i]))
  }

  function HexText(h: HexDigits): Bytes
    requires GoodHex(h)
  {
    SignText(h.sign) + (if h.mark.Some? then [0x30, h.mark.value] else []) + DigitsText(h.digits, h.caps)
  }

  function Base16(digits: seq<nat>): nat
  {
    if digits == [] then 0 else Base16(digits[..|digits| - 1]) * 16 + digits[|digits| - 1]
  }

  /** 64 bits hold it: too large a value becomes the largest, a negative one wraps around. */
  function HexSays(h: HexDigits): nat
  {
    var v := Base16(h.digits);
    if v >= 0x1_0000_0000_0000_0000 then 0xFFFF_FFFF_FFFF_FFFF
    else if h.sign == Some(0x2D) && v > 0 then 0x1_0000_0000_0000_0000 - v
    else v
  }

  function Points(k: nat): (r: Bytes)
    ensures |r| == k && forall i :: 0 <= i < k ==> r[i] == 0x2E
  {
    seq(k, _ => 0x2E)
  }

  function Zeros(k: nat): (r: Bytes)
    ensures |r| == k && forall i :: 0 <= i < k ==> r[i] == 0x30
  {
    seq(k, _ => 0x30)
  }

  /** A text with stray points before each of its bytes and at its end. */
  function Spread(body: Bytes, points: seq<nat>): Bytes
    requires |points| == |body| + 1
  {
    Points(points[0]) + (if body == [] then [] else [body[0]] + Spread(body[1..], points[1..]))
  }

  /** A number with a plus sign, leading zeros, no digit before its point, or stray points; of a text that is
      too long the first 94 characters count. */
  predicate GoodOff(f: Numeral)
    requires f.Off?
  {
    && MaybeSign(f.sign) && |f.points| == |f.body| + 1 && RunBytes(f.rest) && GoodNumber(f.n)
    && NumberText(f.n) == MinusText(f.sign == Some(0x2D)) + (if f.lead then [0x30] else []) + f.body
    && |NumberText(f.n)| <= 94 && (f.rest != [] ==> |NumberText(f.n)| == 94 && f.points[|f.body|] == 0)
    && (forall i :: 0 <= i < |f.body| && f.points[i] > 0 ==> !(0x30 <= f.body[i] <= 0x39))
    && var t := Spread(f.body, f.points) + f.rest;
       && t != [] && (f.lead <==> t[0] == 0x2E) && (f.zeros > 0 ==> 0x30 <= t[0] <= 0x39)
       && (f.sign.None? ==> !IsSign(t[0]))
  }

  predicate Shaped(f: Numeral)
  {
    match f
    case Exact(n) => GoodNumber(n)
    case Infinite(s) => IsSign(s)
    case Hex(s, m, h, rest) =>
      MaybeSign(s) && IsMark(m) && GoodHex(h) && |HexText(h)| <= 31 && (rest != [] ==> |HexText(h)| == 31) && RunBytes(rest)
    case Off(_, _, _, _, _, _, _) => GoodOff(f)
  }

  function NumeralText(f: Numeral): Bytes
    requires Shaped(f)
  {
    match f
    case Exact(n) => NumberText(n)
    case Infinite(s) => [s] + [0x49, 0x6E, 0x66, 0x69, 0x6E, 0x69, 0x74, 0x79]
    case Hex(s, m, h, rest) => SignText(s) + [0x30, m] + HexText(h) + rest
    case Off(s, zeros, _, body, points, rest, _) => SignText(s) + Zeros(zeros) + Spread(body, points) + rest
  }

  /** The number of a token, None for an infinite one. */
  function NumeralNumber(f: Numeral): (r: Option<NumberToken>)
    requires Shaped(f)
    ensures r.Some? ==> GoodNumber(r.value)
  {
    match f
    case Exact(n) => Some(n)
    case Infinite(_) => None
    case Hex(s, _, h, _) => Some(NumberToken(s == Some(0x2D), Decimal.DecimalText(HexSays(h)), None, None))
    case Off(_, _, _, _, _, _, n) => Some(n)
  }

  /** A token of the grammar is no numeral that is off. */
  ghost predicate IsExact(t: Bytes) { exists n :: GoodNumber(n) && NumberText(n) == t }

  ghost predicate GoodNumeral(f: Numeral) { Shaped(f) && (f.Off? ==> !IsExact(NumeralText(f))) }

  function NumeralSays(f: Numeral): Json
    requires Shaped(f)
  {
    var n := NumeralNumber(f);
    if n.None? then Null else Num(NumberMeans(n.value))
  }

  function NumeralFlaws(f: Numeral): seq<Kind>
  {
    match f
    case Exact(_) => []
    case Infinite(_) => [RepairSpec.Literal]
    case _ => [RepairSpec.NumberSyntax]
  }

  /** A token that begins like a number and is none in any of these ways. */
  ghost predicate GoodOther(t: Bytes)
  {
    && t != [] && RunBytes(t) && (IsSign(t[0]) || t[0] == 0x2E || 0x30 <= t[0] <= 0x39)
    && forall f :: Shaped(f) ==> NumeralText(f) != t
  }

  // --- Tokens ---

  datatype Token = Word(cs: seq<Char>) | Number(f: Numeral) | Other(t: Bytes) | Quote(quote: byte, pieces: seq<Piece>)

  ghost predicate GoodToken(k: Token)
  {
    match k
    case Word(cs) => GoodWord(cs)
    case Number(f) => GoodNumeral(f)
    case Other(t) => GoodOther(t)
    case Quote(q, ps) => (q == 0x22 || q == 0x27 || q == 0x60) && GoodPieces(ps, q)
  }

  ghost function TokenText(k: Token): Bytes
    requires GoodToken(k)
  {
    match k
    case Word(cs) => CharsText(cs)
    case Number(f) => NumeralText(f)
    case Other(t) => t
    case Quote(q, ps) => [q] + PiecesText(ps, q) + [q]
  }

  /** What a token denotes as a value. */
  ghost function TokenSays(k: Token): Json
    requires GoodToken(k)
  {
    match k
    case Word(cs) => WordSays(CharsText(cs))
    case Number(f) => NumeralSays(f)
    case Other(t) => Str(t)
    case Quote(q, ps) => Str(PiecesSay(ps, q))
  }

  /** What a token denotes as a key: unless it is quoted, its text. */
  ghost function KeySays(k: Token): Bytes
    requires GoodToken(k)
  {
    if k.Quote? then PiecesSay(k.pieces, k.quote) else TokenText(k)
  }

  function QuoteFlaws(quote: byte, ps: seq<Piece>): seq<Kind>
  {
    (if quote == 0x22 then [] else [RepairSpec.Quotes]) + PiecesFlaws(ps)
  }

  ghost function TokenFlaws(k: Token): seq<Kind>
    requires GoodToken(k)
  {
    match k
    case Word(cs) => WordFlaws(CharsText(cs))
    case Number(f) => NumeralFlaws(f)
    case Other(_) => [RepairSpec.Quotes]
    case Quote(q, ps) => QuoteFlaws(q, ps)
  }

  function KeyFlaws(k: Token): seq<Kind>
  {
    if k.Quote? then QuoteFlaws(k.quote, k.pieces) else [RepairSpec.UnquotedKey]
  }

  // --- Spaces and comments ---

  datatype Filler = Space(b: byte) | Line(slashes: bool, text: Bytes) | Block(text: Bytes) | Fence(text: Bytes)

  predicate NoLineEnd(t: Bytes) { forall i :: 0 <= i < |t| ==> t[i] != 0x0A }

  /** The first end of comment in the text and the two bytes after it is the one after it. */
  predicate NoBlockEnd(t: Bytes)
  {
    forall i :: 0 <= i < |t| ==> !((t + [0x2A, 0x2F])[i] == 0x2A && (t + [0x2A, 0x2F])[i + 1] == 0x2F)
  }

  predicate GoodFiller(f: Filler)
  {
    match f
    case Space(b) => b == 0x20 || b == 0x09 || b == 0x0A || b == 0x0D
    case Line(_, t) => NoLineEnd(t)
    case Block(t) => NoBlockEnd(t)
    case Fence(t) => NoLineEnd(t)
  }

  function FillerText(f: Filler): Bytes
  {
    match f
    case Space(b) => [b]
    case Line(slashes, t) => (if slashes then [0x2F, 0x2F] else [0x23]) + t + [0x0A]
    case Block(t) => [0x2F, 0x2A] + t + [0x2A, 0x2F]
    case Fence(t) => [0x60, 0x60, 0x60] + t + [0x0A]
  }

  function FillerFlaws(f: Filler): seq<Kind>
  {
    match f
    case Space(_) => []
    case Fence(_) => [RepairSpec.CodeFence]
    case _ => [RepairSpec.Comment]
  }

  type Fill = seq<Filler>

  predicate GoodFill(s: Fill) { forall i :: 0 <= i < |s| ==> GoodFiller(s[i]) }

  /** No code fence in it: between values only spaces and comments. */
  predicate GoodGap(s: Fill) { GoodFill(s) && forall i :: 0 <= i < |s| ==> !s[i].Fence? }

  function FillText(s: Fill): Bytes { if s == [] then [] else FillerText(s[0]) + FillText(s[1..]) }

  function FillFlaws(s: Fill): seq<Kind> { if s == [] then [] else FillerFlaws(s[0]) + FillFlaws(s[1..]) }

  // --- Values ---

  datatype Loose =
    | Leaf(k: Token)
    | List(entries: seq<Entry>, inner: Fill, close: byte)
    | Record(fields: seq<Field>, inner: Fill, close: byte)

  datatype Entry = Entry(before: Fill, value: Loose, after: Fill, comma: bool)

  /** A member; its key may be missing before a container, its link may be missing or an equals sign, and so may its
      value. */
  datatype Field =
    Field(before: Fill, key: Option<Token>, between: Fill, link: Option<byte>, gap: Fill, value: Option<Loose>, after: Fill,
          comma: bool)

  predicate IsClose(b: byte) { b == 0x5D || b == 0x7D }

  ghost predicate GoodLoose(v: Loose)
  {
    match v
    case Leaf(k) => GoodToken(k)
    case List(es, inner, close) =>
      && GoodGap(inner) && IsClose(close) && (forall i :: 0 <= i < |es| ==> GoodEntry(es[i]))
      && forall i :: 0 <= i < |es| - 1 ==> es[i].comma || es[i].after != []
    case Record(fs, inner, close) =>
      && GoodGap(inner) && IsClose(close) && (forall i :: 0 <= i < |fs| ==> GoodField(fs[i]))
      && forall i :: 0 <= i < |fs| - 1 ==> fs[i].comma || (fs[i].value.Some? && fs[i].after != [])
  }

  ghost predicate GoodEntry(e: Entry) { GoodGap(e.before) && GoodLoose(e.value) && GoodGap(e.after) }

  ghost predicate GoodField(f: Field)
  {
    && GoodGap(f.before) && GoodGap(f.between) && GoodGap(f.gap) && GoodGap(f.after)
    && (f.link.Some? ==> f.link.value == 0x3A || f.link.value == 0x3D)
    && (f.link.None? ==> f.gap == [] && (f.key.Some? && f.value.Some? ==> f.between != []))
    && (f.value.Some? ==> GoodLoose(f.value.value)) && (f.value.None? ==> f.after == [])
    && (if f.key.Some? then GoodToken(f.key.value)
        else f.between == [] && f.link.None? && f.value.Some? && !f.value.value.Leaf?)
  }

  predicate Within(v: Loose, room: int)
  {
    match v
    case Leaf(_) => true
    case List(es, _, _) => room > 0 && forall i :: 0 <= i < |es| ==> Within(es[i].value, room - 1)
    case Record(fs, _, _) => room > 0 && forall i :: 0 <= i < |fs| ==> WithinField(fs[i], room - 1)
  }

  predicate WithinField(f: Field, room: int) { f.value.Some? ==> Within(f.value.value, room) }

  ghost function Text(v: Loose): Bytes
    requires GoodLoose(v)
    decreases v, 1
  {
    hide GoodToken, GoodEntry, GoodField, GoodGap;
    match v
    case Leaf(k) => TokenText(k)
    case List(es, inner, close) => [0x5B] + EntriesText(es) + FillText(inner) + [close]
    case Record(fs, inner, close) => [0x7B] + FieldsText(fs) + FillText(inner) + [close]
  }

  function CommaText(comma: bool): Bytes { if comma then [0x2C] else [] }

  ghost function EntryText(e: Entry): Bytes
    requires GoodEntry(e)
    decreases e, 2
  {
    hide GoodToken, GoodLoose, GoodGap;
    FillText(e.before) + Text(e.value) + FillText(e.after) + CommaText(e.comma)
  }

  ghost function EntriesText(es: seq<Entry>): Bytes
    requires forall i :: 0 <= i < |es| ==> GoodEntry(es[i])
    decreases es, 0
  {
    hide GoodToken, GoodLoose, GoodGap;
    if es == [] then [] else EntryText(es[0]) + EntriesText(es[1..])
  }

  ghost function KeyText(f: Field): Bytes
    requires GoodField(f)
  {
    hide GoodToken, GoodLoose, GoodGap;
    FillText(f.before) + (if f.key.Some? then TokenText(f.key.value) else []) + FillText(f.between) + SignText(f.link)
    + FillText(f.gap)
  }

  ghost function FieldText(f: Field): Bytes
    requires GoodField(f)
    decreases f, 2
  {
    hide GoodToken, GoodLoose, GoodGap;
    KeyText(f) + (if f.value.Some? then Text(f.value.value) else []) + FillText(f.after) + CommaText(f.comma)
  }

  ghost function FieldsText(fs: seq<Field>): Bytes
    requires forall i :: 0 <= i < |fs| ==> GoodField(fs[i])
    decreases fs, 0
  {
    hide GoodToken, GoodLoose, GoodGap;
    if fs == [] then [] else FieldText(fs[0]) + FieldsText(fs[1..])
  }

  // --- What it denotes ---

  ghost function Says(v: Loose): Json
    requires GoodLoose(v)
    decreases v, 1
  {
    hide GoodToken, GoodEntry, GoodField, GoodGap;
    match v
    case Leaf(k) => TokenSays(k)
    case List(es, _, _) => Arr(EntriesSay(es))
    case Record(fs, _, _) => Obj(FieldsSay(fs))
  }

  ghost function EntrySays(e: Entry): Json
    requires GoodEntry(e)
    decreases e, 2
  {
    hide GoodToken, GoodLoose, GoodGap;
    Says(e.value)
  }

  ghost function EntriesSay(es: seq<Entry>): seq<Json>
    requires forall i :: 0 <= i < |es| ==> GoodEntry(es[i])
    decreases es, 0
  {
    hide GoodToken, GoodLoose, GoodGap;
    if es == [] then [] else [EntrySays(es[0])] + EntriesSay(es[1..])
  }

  /** A missing key is the empty one, a missing value null. */
  ghost function FieldSays(f: Field): Member
    requires GoodField(f)
    decreases f, 2
  {
    hide GoodToken, GoodLoose, GoodGap;
    Member(if f.key.Some? then KeySays(f.key.value) else [], if f.value.Some? then Says(f.value.value) else Null)
  }

  ghost function FieldsSay(fs: seq<Field>): seq<Member>
    requires forall i :: 0 <= i < |fs| ==> GoodField(fs[i])
    decreases fs, 0
  {
    hide GoodToken, GoodLoose, GoodGap;
    if fs == [] then [] else [FieldSays(fs[0])] + FieldsSay(fs[1..])
  }

  // --- What is wrong with it, in the order of the text ---

  function If(b: bool, k: Kind): seq<Kind> { if b then [k] else [] }

  ghost function Flaws(v: Loose): seq<Kind>
    requires GoodLoose(v)
    decreases v, 1
  {
    hide GoodToken, GoodEntry, GoodField, GoodGap;
    match v
    case Leaf(k) => TokenFlaws(k)
    case List(es, inner, close) =>
      EntriesFlaws(es, false) + FillFlaws(inner) + If(close != 0x5D, RepairSpec.Bracket)
      + If(es != [] && es[|es| - 1].comma, RepairSpec.TrailingComma)
    case Record(fs, inner, close) =>
      FieldsFlaws(fs, false) + FillFlaws(inner) + If(close != 0x7D, RepairSpec.Bracket)
      + If(fs != [] && fs[|fs| - 1].comma, RepairSpec.TrailingComma)
      + If(fs != [] && fs[|fs| - 1].value.None? && !fs[|fs| - 1].comma, RepairSpec.MissingValue)
  }

  /** unparted: a value stands before, and no comma after it. */
  ghost function EntryFlaws(e: Entry, unparted: bool): seq<Kind>
    requires GoodEntry(e)
    decreases e, 2
  {
    hide GoodToken, GoodLoose, GoodGap;
    FillFlaws(e.before) + If(unparted, RepairSpec.MissingComma) + Flaws(e.value) + FillFlaws(e.after)
  }

  ghost function EntriesFlaws(es: seq<Entry>, unparted: bool): seq<Kind>
    requires forall i :: 0 <= i < |es| ==> GoodEntry(es[i])
    decreases es, 0
  {
    hide GoodToken, GoodLoose, GoodGap;
    if es == [] then [] else EntryFlaws(es[0], unparted) + EntriesFlaws(es[1..], !es[0].comma)
  }

  ghost function FieldFlaws(f: Field, unparted: bool): seq<Kind>
    requires GoodField(f)
    decreases f, 2
  {
    hide GoodToken, GoodLoose, GoodGap;
    FillFlaws(f.before) + If(unparted, RepairSpec.MissingComma)
    + (if f.key.Some? then KeyFlaws(f.key.value) else [RepairSpec.Garbage])
    + FillFlaws(f.between) + If(f.link == Some(0x3D), RepairSpec.MissingColon) + FillFlaws(f.gap)
    + If(f.key.Some? && f.link.None? && f.value.Some?, RepairSpec.MissingColon)
    + (if f.value.Some? then Flaws(f.value.value) else If(f.comma, RepairSpec.MissingValue)) + FillFlaws(f.after)
  }

  ghost function FieldsFlaws(fs: seq<Field>, unparted: bool): seq<Kind>
    requires forall i :: 0 <= i < |fs| ==> GoodField(fs[i])
    decreases fs, 0
  {
    hide GoodToken, GoodLoose, GoodGap;
    if fs == [] then [] else FieldFlaws(fs[0], unparted) + FieldsFlaws(fs[1..], !fs[0].comma)
  }

  // --- Documents ---

  /** A byte order mark, spaces, comments and code fences, a value, and after it what may stand between values and then
      perhaps a code fence on its own line, which ends the document. */
  datatype Document = Document(mark: bool, before: Fill, value: Loose, after: Fill, ending: Option<Bytes>)

  ghost predicate ShapedDocument(d: Document)
  {
    && GoodFill(d.before) && GoodLoose(d.value) && GoodGap(d.after) && (d.ending.Some? ==> d.after != [])
  }

  function EndingText(e: Option<Bytes>): Bytes { if e.None? then [] else [0x60, 0x60, 0x60] + e.value }

  /** Everything after the byte order mark. */
  ghost function BodyText(d: Document): Bytes
    requires ShapedDocument(d)
  {
    hide GoodLoose;
    FillText(d.before) + Text(d.value) + FillText(d.after) + EndingText(d.ending)
  }

  /** A word at the beginning must not look like a byte order mark. */
  ghost predicate GoodDocument(d: Document)
  {
    ShapedDocument(d) && (!d.mark ==> !(|BodyText(d)| >= 3 && BodyText(d)[..3] == [0xEF, 0xBB, 0xBF]))
  }

  ghost function DocumentText(d: Document): Bytes
    requires GoodDocument(d)
  {
    hide ShapedDocument;
    MarkText(d.mark) + BodyText(d)
  }

  ghost function DocumentFlaws(d: Document): seq<Kind>
    requires ShapedDocument(d)
  {
    hide GoodLoose;
    If(d.mark, RepairSpec.ByteOrderMark) + FillFlaws(d.before) + Flaws(d.value) + FillFlaws(d.after)
    + If(d.ending.Some?, RepairSpec.CodeFence)
  }
}
