/** The grammar of RFC 8259 with the bytes written out: texts as trees of tokens and spaces, and what they mean. */
module Grammar {
  import opened Bytes
  import opened Options
  import opened JsonValue
  import Scan
  import Utf8

  // --- Strings, section 7 ---

  const LOWER_HEX: Bytes :=
    [0x30, 0x31, 0x32, 0x33, 0x34, 0x35, 0x36, 0x37, 0x38, 0x39, 0x61, 0x62, 0x63, 0x64, 0x65, 0x66]
  const UPPER_HEX: Bytes :=
    [0x30, 0x31, 0x32, 0x33, 0x34, 0x35, 0x36, 0x37, 0x38, 0x39, 0x41, 0x42, 0x43, 0x44, 0x45, 0x46]

  /** The one-letter escapes and the bytes they stand for. */
  const LETTERS: Bytes := [0x22, 0x5C, 0x2F, 0x62, 0x66, 0x6E, 0x72, 0x74]
  const LETTER_MEANS: Bytes := [0x22, 0x5C, 0x2F, 0x08, 0x0C, 0x0A, 0x0D, 0x09]

  /** A character as it is, a one-letter escape, or the four digits of one or of two code units, each in either case. */
  datatype Char =
    | Plain(text: Bytes)
    | Letter(k: nat)
    | Unit(u: nat, caps: seq<bool>)
    | Pair(high: nat, low: nat, caps: seq<bool>)

  predicate GoodChar(c: Char)
  {
    match c
    case Plain(s) => Utf8.IsUtf8Char(s) && s[0] >= 0x20 && s[0] != 0x22 && s[0] != 0x5C
    case Letter(k) => k < 8
    case Unit(u, caps) => u < 0x1_0000 && !(0xD800 <= u <= 0xDFFF) && |caps| == 4
    case Pair(hi, lo, caps) => 0xD800 <= hi <= 0xDBFF && 0xDC00 <= lo <= 0xDFFF && |caps| == 8
  }

  function Digit(d: nat, cap: bool): byte
    requires d < 16
  {
    if cap then UPPER_HEX[d] else LOWER_HEX[d]
  }

  /** A code unit with its backslash; the case of each digit is free. */
  function UnitText(u: nat, caps: seq<bool>): (r: Bytes)
    requires u < 0x1_0000 && |caps| == 4
    ensures |r| == 6
  {
    [0x5C, 0x75, Digit(u / 4096, caps[0]), Digit(u / 256 % 16, caps[1]), Digit(u / 16 % 16, caps[2]), Digit(u % 16, caps[3])]
  }

  function CharText(c: Char): (r: Bytes)
    requires GoodChar(c)
    ensures r != []
  {
    match c
    case Plain(s) => s
    case Letter(k) => [0x5C, LETTERS[k]]
    case Unit(u, caps) => UnitText(u, caps)
    case Pair(hi, lo, caps) => UnitText(hi, caps[..4]) + UnitText(lo, caps[4..])
  }

  function CharMeans(c: Char): Bytes
    requires GoodChar(c)
  {
    match c
    case Plain(s) => s
    case Letter(k) => [LETTER_MEANS[k]]
    case Unit(u, _) => Scan.Utf8Encode(u)
    case Pair(hi, lo, _) => Scan.Utf8Encode(0x1_0000 + (hi - 0xD800) * 1024 + (lo - 0xDC00))
  }

  predicate GoodChars(cs: seq<Char>) { forall i :: 0 <= i < |cs| ==> GoodChar(cs[i]) }

  function CharsText(cs: seq<Char>): Bytes
    requires GoodChars(cs)
  {
    if cs == [] then [] else CharText(cs[0]) + CharsText(cs[1..])
  }

  function CharsMean(cs: seq<Char>): Bytes
    requires GoodChars(cs)
  {
    if cs == [] then [] else CharMeans(cs[0]) + CharsMean(cs[1..])
  }

  // --- Numbers, section 6 ---

  datatype Exponent = Exponent(letter: byte, sign: Option<byte>, digits: Bytes)

  datatype NumberToken = NumberToken(minus: bool, whole: Bytes, fraction: Option<Bytes>, exponent: Option<Exponent>)

  predicate AreDigits(t: Bytes) { t != [] && forall i :: 0 <= i < |t| ==> 0x30 <= t[i] <= 0x39 }

  predicate GoodNumber(n: NumberToken)
  {
    && AreDigits(n.whole) && (|n.whole| > 1 ==> n.whole[0] != 0x30)
    && (n.fraction.Some? ==> AreDigits(n.fraction.value))
    && (n.exponent.Some? ==>
          && (n.exponent.value.letter == 0x65 || n.exponent.value.letter == 0x45)
          && (n.exponent.value.sign.Some? ==> n.exponent.value.sign.value == 0x2B || n.exponent.value.sign.value == 0x2D)
          && AreDigits(n.exponent.value.digits))
  }

  function FractionText(f: Option<Bytes>): Bytes { if f.None? then [] else [0x2E] + f.value }

  function SignText(s: Option<byte>): Bytes { if s.None? then [] else [s.value] }

  function ExponentText(e: Option<Exponent>): Bytes
  {
    if e.None? then [] else [e.value.letter] + SignText(e.value.sign) + e.value.digits
  }

  function MinusText(minus: bool): Bytes { if minus then [0x2D] else [] }

  function NumberText(n: NumberToken): Bytes
  {
    MinusText(n.minus) + n.whole + FractionText(n.fraction) + ExponentText(n.exponent)
  }

  /** Decimal digits after a number already read. */
  function Decimal(before: nat, t: Bytes): nat
    requires forall i :: 0 <= i < |t| ==> 0x30 <= t[i] <= 0x39
    decreases |t|
  {
    if t == [] then before else Decimal(before * 10 + (t[0] - 0x30), t[1..])
  }

  /** A whole number of magnitude at most 2^53 is its value; any other token stands for itself. */
  function NumberMeans(n: NumberToken): Number
    requires GoodNumber(n)
  {
    var d: int := Decimal(0, n.whole);
    if n.fraction.None? && n.exponent.None? && d <= 9007199254740992 then Int(if n.minus then -d else d)
    else Float(NumberText(n))
  }

  // --- Values, sections 2 to 5 ---

  datatype Text =
    | TNull | TTrue | TFalse
    | TNumber(n: NumberToken)
    | TString(cs: seq<Char>)
    | TArray(items: seq<Item>, space: Bytes)
    | TObject(members: seq<Mem>, space: Bytes)

  /** A value between spaces. */
  datatype Item = Item(before: Bytes, value: Text, after: Bytes)

  datatype Mem = Mem(before: Bytes, key: seq<Char>, after: Bytes, item: Item)

  predicate AreSpaces(t: Bytes)
  {
    forall i :: 0 <= i < |t| ==> t[i] == 0x20 || t[i] == 0x09 || t[i] == 0x0A || t[i] == 0x0D
  }

  /** The space stands between the brackets of an empty container. */
  predicate Good(t: Text)
  {
    match t
    case TNumber(n) => GoodNumber(n)
    case TString(cs) => GoodChars(cs)
    case TArray(items, s) => AreSpaces(s) && (items != [] ==> s == []) && forall i :: 0 <= i < |items| ==> GoodItem(items[i])
    case TObject(ms, s) => AreSpaces(s) && (ms != [] ==> s == []) && forall i :: 0 <= i < |ms| ==> GoodMem(ms[i])
    case _ => true
  }

  predicate GoodItem(i: Item) { AreSpaces(i.before) && Good(i.value) && AreSpaces(i.after) }

  predicate GoodMem(m: Mem) { AreSpaces(m.before) && GoodChars(m.key) && AreSpaces(m.after) && GoodItem(m.item) }

  predicate Within(t: Text, room: int)
  {
    match t
    case TArray(items, _) => room > 0 && forall i :: 0 <= i < |items| ==> Within(items[i].value, room - 1)
    case TObject(ms, _) => room > 0 && forall i :: 0 <= i < |ms| ==> WithinMem(ms[i], room - 1)
    case _ => true
  }

  predicate WithinMem(m: Mem, room: int) { Within(m.item.value, room) }

  function TextBytes(t: Text): (r: Bytes)
    requires Good(t)
    decreases t, 1
  {
    match t
    case TNull => [0x6E, 0x75, 0x6C, 0x6C]
    case TTrue => [0x74, 0x72, 0x75, 0x65]
    case TFalse => [0x66, 0x61, 0x6C, 0x73, 0x65]
    case TNumber(n) => NumberText(n)
    case TString(cs) => Quoted(cs)
    case TArray(items, s) => [0x5B] + s + ItemsBytes(items) + [0x5D]
    case TObject(ms, s) => [0x7B] + s + MemsBytes(ms) + [0x7D]
  }

  function Quoted(cs: seq<Char>): Bytes
    requires GoodChars(cs)
  {
    [0x22] + CharsText(cs) + [0x22]
  }

  function ItemBytes(i: Item): Bytes
    requires GoodItem(i)
    decreases i, 2
  {
    i.before + TextBytes(i.value) + i.after
  }

  function ItemsBytes(items: seq<Item>): Bytes
    requires forall i :: 0 <= i < |items| ==> GoodItem(items[i])
    decreases items, 0
  {
    if items == [] then [] else ItemBytes(items[0]) + (if |items| == 1 then [] else [0x2C] + ItemsBytes(items[1..]))
  }

  function MemBytes(m: Mem): Bytes
    requires GoodMem(m)
    decreases m, 3
  {
    m.before + Quoted(m.key) + m.after + [0x3A] + ItemBytes(m.item)
  }

  function MemsBytes(ms: seq<Mem>): Bytes
    requires forall i :: 0 <= i < |ms| ==> GoodMem(ms[i])
    decreases ms, 0
  {
    if ms == [] then [] else MemBytes(ms[0]) + (if |ms| == 1 then [] else [0x2C] + MemsBytes(ms[1..]))
  }

  function Means(t: Text): Json
    requires Good(t)
    decreases t, 1
  {
    match t
    case TNull => Null
    case TTrue => Bool(true)
    case TFalse => Bool(false)
    case TNumber(n) => Num(NumberMeans(n))
    case TString(cs) => Str(CharsMean(cs))
    case TArray(items, _) => Arr(MeanItems(items))
    case TObject(ms, _) => Obj(MeanMems(ms))
  }

  function MeanItems(items: seq<Item>): (r: seq<Json>)
    requires forall i :: 0 <= i < |items| ==> GoodItem(items[i])
    decreases items, 0
  {
    if items == [] then [] else [MeansItem(items[0])] + MeanItems(items[1..])
  }

  function MeansItem(i: Item): Json
    requires GoodItem(i)
    decreases i, 2
  {
    Means(i.value)
  }

  function MeansMem(m: Mem): Member
    requires GoodMem(m)
    decreases m, 3
  {
    Member(CharsMean(m.key), MeansItem(m.item))
  }

  function MeanMems(ms: seq<Mem>): (r: seq<Member>)
    requires forall i :: 0 <= i < |ms| ==> GoodMem(ms[i])
    decreases ms, 0
  {
    if ms == [] then [] else [MeansMem(ms[0])] + MeanMems(ms[1..])
  }

  // --- Documents; a byte order mark may come first ---

  function MarkText(mark: bool): Bytes { if mark then [0xEF, 0xBB, 0xBF] else [] }

  function DocumentBytes(mark: bool, i: Item): Bytes
    requires GoodItem(i)
  {
    MarkText(mark) + ItemBytes(i)
  }

  /** The bytes are a JSON text that means this tree and nests no deeper than max. */
  ghost predicate IsText(inp: Bytes, v: Json, max: nat)
  {
    exists mark: bool, i: Item ::
      GoodItem(i) && Within(i.value, max) && DocumentBytes(mark, i) == inp && MeansItem(i) == v
  }
}

/** Escapes in strings: every spelling the grammar allows is read as it says, and every other is rejected. */
module EscapeLaws {
  import opened Bytes
  import opened Texts
  import opened Options
  import opened Scan
  import opened ParserSpec
  import opened Grammar
  import Utf8

  /** Each of the sixteen digits, in either case, has the value of its place in the table; no other byte is a digit. */
  lemma HexTable(c: byte)
    ensures forall d :: 0 <= d < 16 && (c == LOWER_HEX[d] || c == UPPER_HEX[d]) ==> HexDigit(c) == d
    ensures (forall d :: 0 <= d < 16 ==> c != LOWER_HEX[d] && c != UPPER_HEX[d]) ==> HexDigit(c) < 0
  {
    if 0x30 <= c <= 0x39 { assert c == LOWER_HEX[c - 0x30]; }
    if 0x61 <= c <= 0x66 { assert c == LOWER_HEX[c - 0x61 + 10]; }
    if 0x41 <= c <= 0x46 { assert c == UPPER_HEX[c - 0x41 + 10]; }
  }

  lemma DigitReads(d: nat, cap: bool)
    requires d < 16
    ensures HexDigit(Digit(d, cap)) == d
  {
    HexTable(Digit(d, cap));
    hide HexDigit, LOWER_HEX, UPPER_HEX;
  }

  lemma UnitReads(u: nat, caps: seq<bool>, inp: Bytes, p: nat)
    requires u < 0x1_0000 && |caps| == 4 && Holds(inp, p, UnitText(u, caps))
    ensures p + 6 <= |inp| && inp[p] == 0x5C && inp[p + 1] == 0x75 && Hex4(inp, p + 2) == u
  {
    HoldsFits(inp, p, UnitText(u, caps));
    UnitDigits(u, caps);
    FourDigits(u);
    hide *;
    var t := UnitText(u, caps);
    assert inp[p + 2] == t[2] && inp[p + 3] == t[3] && inp[p + 4] == t[4] && inp[p + 5] == t[5];
    HexOf(inp, p + 2);
  }

  lemma UnitDigits(u: nat, caps: seq<bool>)
    requires u < 0x1_0000 && |caps| == 4
    ensures var t := UnitText(u, caps);
            && t[0] == 0x5C && t[1] == 0x75 && HexDigit(t[2]) == u / 4096 && HexDigit(t[3]) == u / 256 % 16
            && HexDigit(t[4]) == u / 16 % 16 && HexDigit(t[5]) == u % 16
  {
    DigitReads(u / 4096, caps[0]);
    DigitReads(u / 256 % 16, caps[1]);
    DigitReads(u / 16 % 16, caps[2]);
    DigitReads(u % 16, caps[3]);
    hide Digit, HexDigit;
  }

  lemma HexOf(inp: Bytes, p: nat)
    requires p + 4 <= |inp|
    ensures var a, b, c, d := HexDigit(inp[p]), HexDigit(inp[p + 1]), HexDigit(inp[p + 2]), HexDigit(inp[p + 3]);
            a >= 0 && b >= 0 && c >= 0 && d >= 0 ==> Hex4(inp, p) == ((a * 16 + b) * 16 + c) * 16 + d
  {
    hide HexDigit;
  }

  lemma FourDigits(u: nat)
    ensures u == ((u / 4096 * 16 + u / 256 % 16) * 16 + u / 16 % 16) * 16 + u % 16
  {
    assert u / 16 == u / 256 * 16 + u / 16 % 16;
    assert u / 256 == u / 4096 * 16 + u / 256 % 16;
  }

  lemma LetterReads(k: nat)
    requires k < 8
    ensures SimpleEscape(LETTERS[k]) == Some(LETTER_MEANS[k]) && LETTERS[k] != LOWER_U
  {
  }

  /** Only the eight letters make one-letter escapes. */
  lemma OtherLetters(c: byte)
    requires forall k :: 0 <= k < 8 ==> c != LETTERS[k]
    ensures SimpleEscape(c) == None
  {
    assert LETTERS[0] == 0x22 && LETTERS[1] == 0x5C && LETTERS[2] == 0x2F && LETTERS[3] == 0x62 && LETTERS[4] == 0x66
        && LETTERS[5] == 0x6E && LETTERS[6] == 0x72 && LETTERS[7] == 0x74;
  }

  lemma EscapeReads(c: Char, inp: Bytes, p: nat)
    requires GoodChar(c) && !c.Plain? && Holds(inp, p, CharText(c))
    ensures p < |inp| && inp[p] == BACKSLASH
    ensures DecodeEscape(inp, p, |inp|) == Escaped(CharMeans(c), |CharText(c)|)
  {
    hide Holds, Utf8Encode, Hex4, SimpleEscape, UnitText;
    match c
    case Letter(k) =>
      HoldsFits(inp, p, [0x5C, LETTERS[k]]);
      LetterReads(k);
      assert inp[p + 0] == [0x5C, LETTERS[k]][0] && inp[p + 1] == [0x5C, LETTERS[k]][1];
    case Unit(u, caps) => UnitReads(u, caps, inp, p);
    case Pair(hi, lo, caps) =>
      HoldsParts(inp, p, UnitText(hi, caps[..4]), UnitText(lo, caps[4..]));
      UnitReads(hi, caps[..4], inp, p);
      UnitReads(lo, caps[4..], inp, p + 6);
  }

  lemma PlainReads(s: Bytes, inp: Bytes, p: nat)
    requires Utf8.IsUtf8Char(s) && Holds(inp, p, s)
    ensures p < |inp| && inp[p] == s[0] && Utf8Length(inp, p, |inp|) == |s| && inp[p..p + |s|] == s
  {
    HoldsFits(inp, p, s);
    Utf8.LengthIsChar(inp, p, |inp|, |s|);
  }

  lemma CharsUnfold(cs: seq<Char>)
    requires GoodChars(cs)
    ensures cs == [] ==> CharsText(cs) == [] && CharsMean(cs) == []
    ensures cs != [] ==>
              && GoodChar(cs[0]) && GoodChars(cs[1..])
              && CharsText(cs) == CharText(cs[0]) + CharsText(cs[1..])
              && CharsMean(cs) == CharMeans(cs[0]) + CharsMean(cs[1..])
  {
    hide CharText, CharMeans, GoodChar;
  }

  lemma ReadsQuote(inp: Bytes, p: nat)
    requires Holds(inp, p, [0x22])
    ensures p < |inp| && ReadString(inp, p) == Ok([], p + 1)
  {
    HoldsAt(inp, p, [0x22], 0);
  }

  /** A string of the grammar is read as what its characters mean. */
  lemma {:induction false} CharsRead(cs: seq<Char>, inp: Bytes, p: nat)
    requires GoodChars(cs) && Holds(inp, p, CharsText(cs) + [0x22])
    ensures p <= |inp| && ReadString(inp, p) == Ok(CharsMean(cs), p + |CharsText(cs)| + 1)
    decreases |cs|
  {
    hide *;
    CharsUnfold(cs);
    if cs == [] {
      NothingBefore([0x22]);
      ReadsQuote(inp, p);
    } else {
      var first, rest := CharText(cs[0]), CharsText(cs[1..]);
      Associates(first, rest, [0x22]);
      HoldsParts(inp, p, first, rest + [0x22]);
      CharsRead(cs[1..], inp, p + |first|);
      ReadsOne(cs[0], inp, p);
      Prepends(CharMeans(cs[0]), CharsMean(cs[1..]), p + |first| + |rest| + 1);
    }
  }

  lemma Prepends(head: Bytes, tail: Bytes, pos: nat)
    ensures Prepend(head, Ok(tail, pos)) == Ok(head + tail, pos)
  {
  }

  /** Reading goes on after the first character. */
  lemma ReadsOne(c: Char, inp: Bytes, p: nat)
    requires GoodChar(c) && Holds(inp, p, CharText(c))
    ensures p < |inp| && p + |CharText(c)| <= |inp|
    ensures ReadString(inp, p) == Prepend(CharMeans(c), ReadString(inp, p + |CharText(c)|))
  {
    HoldsFits(inp, p, CharText(c));
    hide Utf8Length, DecodeEscape;
    if c.Plain? { PlainReads(c.text, inp, p); } else { EscapeReads(c, inp, p); }
    hide CharText, CharMeans;
  }

  // --- Whatever is read is of the grammar ---

  lemma DigitTold(c: byte) returns (cap: bool)
    requires HexDigit(c) >= 0
    ensures Digit(HexDigit(c), cap) == c
  {
    cap := c <= 0x46;
  }

  lemma UnitTold(inp: Bytes, p: nat) returns (caps: seq<bool>)
    requires p + 6 <= |inp| && inp[p] == 0x5C && inp[p + 1] == 0x75 && Hex4(inp, p + 2) >= 0
    ensures |caps| == 4 && Holds(inp, p, UnitText(Hex4(inp, p + 2), caps))
  {
    var a := DigitTold(inp[p + 2]);
    var b := DigitTold(inp[p + 3]);
    var c := DigitTold(inp[p + 4]);
    var d := DigitTold(inp[p + 5]);
    caps := [a, b, c, d];
    hide Digit, HexDigit;
    var w, x, y, z := HexDigit(inp[p + 2]), HexDigit(inp[p + 3]), HexDigit(inp[p + 4]), HexDigit(inp[p + 5]);
    var u := Hex4(inp, p + 2);
    SplitDigits(w, x, y, z);
    assert UnitText(u, caps) == [0x5C, 0x75, inp[p + 2], inp[p + 3], inp[p + 4], inp[p + 5]];
    assert inp[p..p + 6] == [inp[p], inp[p + 1], inp[p + 2], inp[p + 3], inp[p + 4], inp[p + 5]];
  }

  lemma SplitDigits(w: nat, x: nat, y: nat, z: nat)
    requires w < 16 && x < 16 && y < 16 && z < 16
    ensures var u := ((w * 16 + x) * 16 + y) * 16 + z;
            u / 4096 == w && u / 256 % 16 == x && u / 16 % 16 == y && u % 16 == z
  {
  }

  lemma LetterTold(c: byte) returns (k: nat)
    requires SimpleEscape(c).Some?
    ensures k < 8 && LETTERS[k] == c && LETTER_MEANS[k] == SimpleEscape(c).value
  {
    k := if c == 0x22 then 0 else if c == 0x5C then 1 else if c == 0x2F then 2 else if c == 0x62 then 3
         else if c == 0x66 then 4 else if c == 0x6E then 5 else if c == 0x72 then 6 else 7;
  }

  lemma EscapeTold(inp: Bytes, p: nat) returns (c: Char)
    requires p < |inp| && inp[p] == BACKSLASH && DecodeEscape(inp, p, |inp|).Escaped?
    ensures var e := DecodeEscape(inp, p, |inp|);
            GoodChar(c) && Holds(inp, p, CharText(c)) && CharMeans(c) == e.out && |CharText(c)| == e.used
  {
    hide Hex4, Utf8Encode, SimpleEscape, UnitText;
    if inp[p + 1] != LOWER_U {
      var k := LetterTold(inp[p + 1]);
      c := Letter(k);
      assert inp[p..p + 2] == [0x5C, LETTERS[k]];
    } else {
      var caps := UnitTold(inp, p);
      var u := Hex4(inp, p + 2);
      if IsHighSurrogate(u) {
        var more := UnitTold(inp, p + 6);
        var low := Hex4(inp, p + 8);
        assert (caps + more)[..4] == caps && (caps + more)[4..] == more;
        HoldsTogether(inp, p, UnitText(u, caps), UnitText(low, more));
        c := Pair(u, low, caps + more);
      } else {
        c := Unit(u, caps);
      }
    }
  }

  lemma HoldsTogether(inp: Bytes, p: nat, a: Bytes, b: Bytes)
    requires Holds(inp, p, a) && Holds(inp, p + |a|, b)
    ensures Holds(inp, p, a + b)
  {
    assert inp[p..p + |a + b|] == inp[p..p + |a|] + inp[p + |a|..p + |a| + |b|];
  }

  /** The character at which a readable string goes on. */
  lemma OneTold(inp: Bytes, p: nat) returns (c: Char)
    requires p < |inp| && inp[p] != QUOTE && ReadString(inp, p).Ok?
    ensures GoodChar(c) && Holds(inp, p, CharText(c)) && p + |CharText(c)| <= |inp|
    ensures ReadString(inp, p) == Prepend(CharMeans(c), ReadString(inp, p + |CharText(c)|))
    ensures ReadString(inp, p + |CharText(c)|).Ok?
  {
    hide DecodeEscape, Utf8Length;
    if inp[p] == BACKSLASH {
      c := EscapeTold(inp, p);
      hide CharText, CharMeans;
    } else {
      var n := Utf8Length(inp, p, |inp|);
      Utf8.LengthIsChar(inp, p, |inp|, n);
      c := Plain(inp[p..p + n]);
    }
  }

  lemma {:induction false} CharsTold(inp: Bytes, p: nat) returns (cs: seq<Char>)
    requires p <= |inp| && ReadString(inp, p).Ok?
    ensures GoodChars(cs) && Holds(inp, p, CharsText(cs) + [0x22])
    ensures ReadString(inp, p) == Ok(CharsMean(cs), p + |CharsText(cs)| + 1)
    decreases |inp| - p
  {
    hide *;
    StringOpens(inp, p);
    if inp[p] == QUOTE {
      cs := [];
      CharsUnfold(cs);
      NothingBefore([0x22]);
    } else {
      var c := OneTold(inp, p);
      CharTextSome(c);
      var rest := CharsTold(inp, p + |CharText(c)|);
      cs := [c] + rest;
      GoodMore(c, rest);
      CharsUnfold(cs);
      Associates(CharText(c), CharsText(rest), [0x22]);
      HoldsTogether(inp, p, CharText(c), CharsText(rest) + [0x22]);
      Prepends(CharMeans(c), CharsMean(rest), p + |CharText(c)| + |CharsText(rest)| + 1);
    }
  }

  lemma StringOpens(inp: Bytes, p: nat)
    requires p <= |inp| && ReadString(inp, p).Ok?
    ensures p < |inp| && GoodChars([])
    ensures inp[p] == QUOTE ==> ReadString(inp, p) == Ok([], p + 1) && Holds(inp, p, [0x22])
  {
    if inp[p] == QUOTE { assert inp[p..p + 1] == [0x22]; }
  }

  lemma CharTextSome(c: Char)
    requires GoodChar(c)
    ensures CharText(c) != []
  {
  }

  lemma GoodMore(c: Char, rest: seq<Char>)
    requires GoodChar(c) && GoodChars(rest)
    ensures GoodChars([c] + rest) && ([c] + rest)[1..] == rest
  {
  }

  /** A string is read exactly if it is of the grammar, and as what that says. */
  lemma StringsExactly(inp: Bytes, p: nat, v: Bytes, e: nat)
    requires p <= |inp|
    ensures ReadString(inp, p) == Ok(v, e)
            <==> exists cs :: GoodChars(cs) && Holds(inp, p, CharsText(cs) + [0x22]) && CharsMean(cs) == v
                              && e == p + |CharsText(cs)| + 1
  {
    if ReadString(inp, p) == Ok(v, e) { var cs := CharsTold(inp, p); }
    if cs :| GoodChars(cs) && Holds(inp, p, CharsText(cs) + [0x22]) && CharsMean(cs) == v && e == p + |CharsText(cs)| + 1 {
      CharsRead(cs, inp, p);
    }
  }

  // --- Single escapes ---

  /** The escape of any code unit that is no surrogate, its digits in either case, is read as its code point. */
  lemma UnitEscapeReads(u: nat, caps: seq<bool>)
    requires u < 0x1_0000 && !(0xD800 <= u <= 0xDFFF) && |caps| == 4
    ensures ReadString(UnitText(u, caps) + [0x22], 0) == Ok(Utf8Encode(u), 7)
  {
    WholeReads([Unit(u, caps)]);
    hide *;
    OneChar(Unit(u, caps));
    UnitChar(u, caps);
  }

  lemma UnitChar(u: nat, caps: seq<bool>)
    requires u < 0x1_0000 && !(0xD800 <= u <= 0xDFFF) && |caps| == 4
    ensures GoodChar(Unit(u, caps)) && CharText(Unit(u, caps)) == UnitText(u, caps)
    ensures CharMeans(Unit(u, caps)) == Utf8Encode(u) && |UnitText(u, caps)| == 6
  {
  }

  lemma OneChar(c: Char)
    requires GoodChar(c)
    ensures GoodChars([c]) && CharsText([c]) == CharText(c) && CharsMean([c]) == CharMeans(c)
  {
    assert [c][1..] == [];
    hide CharText, CharMeans, GoodChar;
  }

  lemma WholeReads(cs: seq<Char>)
    requires GoodChars(cs)
    ensures ReadString(CharsText(cs) + [0x22], 0) == Ok(CharsMean(cs), |CharsText(cs)| + 1)
  {
    var inp := CharsText(cs) + [0x22];
    assert Holds(inp, 0, inp);
    hide *;
    CharsRead(cs, inp, 0);
  }

  /** Two escapes that form a surrogate pair are read as its code point. */
  lemma PairEscapeReads(cp: nat, caps: seq<bool>, more: seq<bool>)
    requires 0x1_0000 <= cp < 0x11_0000 && |caps| == 4 && |more| == 4
    ensures var high, low := 0xD800 + (cp - 0x1_0000) / 1024, 0xDC00 + (cp - 0x1_0000) % 1024;
            ReadString(UnitText(high, caps) + UnitText(low, more) + [0x22], 0) == Ok(Utf8Encode(cp), 13)
  {
    hide *;
    SurrogatesOf(cp);
    PairTextReads(0xD800 + (cp - 0x1_0000) / 1024, 0xDC00 + (cp - 0x1_0000) % 1024, cp, caps, more);
  }

  lemma SurrogatesOf(cp: nat)
    requires 0x1_0000 <= cp < 0x11_0000
    ensures var high, low := 0xD800 + (cp - 0x1_0000) / 1024, 0xDC00 + (cp - 0x1_0000) % 1024;
            && 0xD800 <= high <= 0xDBFF && 0xDC00 <= low <= 0xDFFF
            && cp == 0x1_0000 + (high - 0xD800) * 1024 + (low - 0xDC00)
  {
  }

  lemma PairTextReads(high: nat, low: nat, cp: nat, caps: seq<bool>, more: seq<bool>)
    requires 0xD800 <= high <= 0xDBFF && 0xDC00 <= low <= 0xDFFF && |caps| == 4 && |more| == 4
    requires cp == 0x1_0000 + (high - 0xD800) * 1024 + (low - 0xDC00) < 0x11_0000
    ensures ReadString(UnitText(high, caps) + UnitText(low, more) + [0x22], 0) == Ok(Utf8Encode(cp), 13)
  {
    hide *;
    PairChar(high, low, cp, caps, more);
    OneChar(Pair(high, low, caps + more));
    WholeReads([Pair(high, low, caps + more)]);
  }

  lemma PairChar(high: nat, low: nat, cp: nat, caps: seq<bool>, more: seq<bool>)
    requires 0xD800 <= high <= 0xDBFF && 0xDC00 <= low <= 0xDFFF && |caps| == 4 && |more| == 4
    requires cp == 0x1_0000 + (high - 0xD800) * 1024 + (low - 0xDC00)
    ensures var c := Pair(high, low, caps + more);
            && GoodChar(c) && CharText(c) == UnitText(high, caps) + UnitText(low, more)
            && |CharText(c)| == 12 && CharMeans(c) == Utf8Encode(cp)
  {
    assert (caps + more)[..4] == caps && (caps + more)[4..] == more;
    hide Utf8Encode, Digit;
  }

  /** A digit outside of the two tables is rejected, whatever else the text holds. */
  lemma BadDigitRejects(inp: Bytes, p: nat, k: nat)
    requires p + 6 <= |inp| && inp[p] == 0x5C && inp[p + 1] == 0x75 && 2 <= k < 6
    requires forall d :: 0 <= d < 16 ==> inp[p + k] != LOWER_HEX[d] && inp[p + k] != UPPER_HEX[d]
    ensures ReadString(inp, p) == Fail
  {
    HexTable(inp[p + k]);
    hide HexDigit, LOWER_HEX, UPPER_HEX;
  }

  /** The one-letter escapes, spelled out; any other letter is rejected. */
  lemma LettersSpelled(inp: Bytes, p: nat)
    requires p + 2 <= |inp| && inp[p] == 0x5C && inp[p + 1] != 0x75
    ensures var c := inp[p + 1];
            var meant := if c == 0x22 || c == 0x5C || c == 0x2F then [c] else if c == 0x62 then [0x08]
                         else if c == 0x66 then [0x0C] else if c == 0x6E then [0x0A] else if c == 0x72 then [0x0D]
                         else if c == 0x74 then [0x09] else [];
            ReadString(inp, p) == if meant == [] then Fail else Prepend(meant, ReadString(inp, p + 2))
  {
  }
}
