/** What the repairer writes for a word and for a quoted literal. */
module RepairedWords {
  import opened Bytes
  import opened Texts
  import opened Options
  import opened JsonValue
  import opened Scan
  import opened SerializerSpec
  import opened Grammar
  import opened LooseText
  import EscapeLaws
  import Utf8
  import RepairSpec

  type Core = RepairSpec.Core

  // --- What is written and noted ---

  function Kinds(fl: seq<Kind>): set<Kind> { set k | k in fl }

  /** The output and the report after some more bytes and flaws. */
  function Put(c: Core, s: Bytes, fl: seq<Kind>): Core
  {
    c.(out := c.out + s, fixes := c.fixes + |fl|, kinds := c.kinds + Kinds(fl))
  }

  lemma PutPut(c: Core, a: Bytes, fa: seq<Kind>, b: Bytes, fb: seq<Kind>)
    ensures Put(Put(c, a, fa), b, fb) == Put(c, a + b, fa + fb)
  {
    Associates(c.out, a, b);
  }

  lemma PutNothing(c: Core)
    ensures Put(c, [], []) == c
  {
  }

  lemma PutEmit(c: Core, s: Bytes)
    ensures RepairSpec.Emit(c, s) == Put(c, s, [])
  {
  }

  lemma PutFix(c: Core, k: Kind)
    ensures RepairSpec.Fix(c, k) == Put(c, [], [k])
  {
    assert Kinds([k]) == {k};
  }

  lemma PutFixEmit(c: Core, k: Kind, s: Bytes)
    ensures RepairSpec.Emit(RepairSpec.Fix(c, k), s) == Put(c, s, [k])
  {
    assert Kinds([k]) == {k};
  }

  lemma PutMoves(c: Core, s: Bytes, fl: seq<Kind>, p: nat)
    ensures Put(c.(pos := p), s, fl) == Put(c, s, fl).(pos := p)
  {
  }

  // --- Text that is printed between quotes as it is ---

  predicate Bare(c: byte) { c >= 0x20 && c != 0x22 && c != 0x5C }

  lemma {:induction false} BareBody(s: Bytes, i: nat)
    requires i <= |s| && forall k :: i <= k < |s| ==> Bare(s[k])
    ensures StringBody(s, i, false) == s[i..]
    decreases |s| - i
  {
    hide ShortEscape;
    if i < |s| {
      BareBody(s, i + 1);
      assert s[i..] == [s[i]] + s[i + 1..];
    }
  }

  lemma BarePrints(s: Bytes)
    requires forall k :: 0 <= k < |s| ==> Bare(s[k])
    ensures PrintString(s, false) == [0x22] + s + [0x22]
  {
    BareBody(s, 0);
    assert s[0..] == s;
    hide StringBody;
  }

  // --- Plain characters ---

  lemma {:induction false} PlainMean(cs: seq<Char>)
    requires GoodChars(cs) && forall i :: 0 <= i < |cs| ==> cs[i].Plain?
    ensures CharsMean(cs) == CharsText(cs)
  {
    if cs != [] { PlainMean(cs[1..]); }
  }

  /** Plain ASCII characters, one for each byte. */
  function Singles(t: Bytes): (cs: seq<Char>)
    ensures |cs| == |t| && forall i :: 0 <= i < |t| ==> cs[i] == Plain([t[i]])
  {
    seq(|t|, i requires 0 <= i < |t| => Plain([t[i]]))
  }

  lemma AsciiPlain(c: byte)
    requires Bare(c) && c < 0x80
    ensures GoodChar(Plain([c]))
  {
  }

  lemma {:induction false} SinglesAre(t: Bytes)
    requires forall i :: 0 <= i < |t| ==> Bare(t[i]) && t[i] < 0x80
    ensures GoodChars(Singles(t)) && CharsText(Singles(t)) == t && CharsMean(Singles(t)) == t
  {
    hide GoodChar;
    forall i | 0 <= i < |t| ensures GoodChar(Singles(t)[i]) { AsciiPlain(t[i]); }
    if t != [] {
      SinglesAre(t[1..]);
      assert Singles(t)[1..] == Singles(t[1..]);
      assert t == [t[0]] + t[1..];
    }
  }

  // --- Words ---

  lemma WordBytesBare(c: byte)
    requires WordByte(c)
    ensures Bare(c)
  {
  }

  lemma WordPrints(cs: seq<Char>)
    requires GoodWord(cs)
    ensures PrintString(CharsText(cs), false) == Quoted(cs) && CharsMean(cs) == CharsText(cs)
  {
    var w := CharsText(cs);
    forall k | 0 <= k < |w| ensures Bare(w[k]) { WordBytesBare(w[k]); }
    hide CharsText, CharsMean, PrintString;
    BarePrints(w);
    PlainMean(cs);
  }

  /** The text for a word. */
  function WordText(cs: seq<Char>): Text
    requires GoodChars(cs)
  {
    var w := CharsText(cs);
    if w in TRUES then TTrue else if w in FALSES then TFalse else if w in NULLS then TNull else TString(cs)
  }

  lemma WordTextSays(cs: seq<Char>)
    requires GoodWord(cs)
    ensures Good(WordText(cs)) && Means(WordText(cs)) == WordSays(CharsText(cs))
  {
    WordPrints(cs);
    hide CharsText, CharsMean, PrintString, TRUES, FALSES, NULLS;
  }

  /** The tables of the repairer are those of the spellings. */
  lemma WordsSpelled(c: Core, w: Bytes)
    ensures w in TRUES ==> RepairSpec.WordValue(c, w) == Put(c, [0x74, 0x72, 0x75, 0x65], WordFlaws(w))
    ensures w in FALSES ==> RepairSpec.WordValue(c, w) == Put(c, [0x66, 0x61, 0x6C, 0x73, 0x65], WordFlaws(w))
    ensures w in NULLS ==> RepairSpec.WordValue(c, w) == Put(c, [0x6E, 0x75, 0x6C, 0x6C], WordFlaws(w))
    ensures w !in TRUES && w !in FALSES && w !in NULLS ==>
              RepairSpec.WordValue(c, w) == Put(c, PrintString(w, false), [RepairSpec.Quotes])
  {
    hide PrintString, Put;
    PutEmit(c, w);
    PutFixEmit(c, RepairSpec.Literal, TRUE_WORD);
    PutFixEmit(c, RepairSpec.Literal, FALSE_WORD);
    PutFixEmit(c, RepairSpec.Literal, NULL_WORD);
    PutFixEmit(c, RepairSpec.Quotes, PrintString(w, false));
  }

  /** A bare word is written as true, false or null exactly for the spellings in the tables, else as a string. */
  lemma WordWritten(c: Core, cs: seq<Char>)
    requires GoodWord(cs)
    ensures Good(WordText(cs))
    ensures RepairSpec.WordValue(c, CharsText(cs)) == Put(c, TextBytes(WordText(cs)), WordFlaws(CharsText(cs)))
  {
    WordTextSays(cs);
    WordPrints(cs);
    WordsSpelled(c, CharsText(cs));
    hide CharsText, PrintString, TRUES, FALSES, NULLS, Put, RepairSpec.WordValue, GoodChars;
  }

  // --- Quoted literals ---

  /** The characters a piece is written as. */
  function PieceChars(p: Piece, quote: byte): seq<Char>
  {
    match p
    case Same(c) => [c]
    case Delimiter => [Plain([quote])]
    case LineEnd => []
    case Stray(s) => [Letter(1), Plain(s)]
    case Control(b) => [ControlChar(b)]
    case DoubleQuote => [Letter(0)]
  }

  function ControlChar(b: byte): Char
  {
    if b == 0x08 then Letter(3) else if b == 0x0C then Letter(4) else if b == 0x0A then Letter(5)
    else if b == 0x0D then Letter(6) else if b == 0x09 then Letter(7) else Unit(b, [false, false, false, false])
  }

  function PiecesChars(ps: seq<Piece>, quote: byte): seq<Char>
  {
    if ps == [] then [] else PieceChars(ps[0], quote) + PiecesChars(ps[1..], quote)
  }

  predicate IsQuote(q: byte) { q == 0x22 || q == 0x27 || q == 0x60 }

  lemma TwoChars(a: Char, b: Char)
    requires GoodChar(a) && GoodChar(b)
    ensures GoodChars([a, b]) && CharsText([a, b]) == CharText(a) + CharText(b)
    ensures CharsMean([a, b]) == CharMeans(a) + CharMeans(b)
  {
    EscapeLaws.OneChar(b);
    assert [a, b][1..] == [b];
    hide GoodChar, CharText, CharMeans;
  }

  lemma ControlIs(b: byte)
    requires b < 0x20
    ensures GoodChar(ControlChar(b)) && CharText(ControlChar(b)) == ShortEscape(b) && CharMeans(ControlChar(b)) == [b]
  {
    if b != 0x08 && b != 0x0C && b != 0x0A && b != 0x0D && b != 0x09 {
      assert UnitText(b, [false, false, false, false]) == UnitEscape(b);
    }
  }

  lemma NoChars()
    ensures GoodChars([]) && CharsText([]) == [] && CharsMean([]) == []
  {
  }

  lemma PieceIs(p: Piece, quote: byte)
    requires GoodPiece(p, quote) && IsQuote(quote)
    ensures GoodChars(PieceChars(p, quote)) && CharsMean(PieceChars(p, quote)) == PieceSays(p, quote)
  {
    hide *;
    PieceCases(p, quote);
    NoChars();
    match p
    case Same(c) => EscapeLaws.OneChar(c);
    case Delimiter => EscapeLaws.OneChar(Plain([quote]));
    case LineEnd =>
    case Stray(s) => TwoChars(Letter(1), Plain(s));
    case Control(b) => EscapeLaws.OneChar(ControlChar(b));
    case DoubleQuote => EscapeLaws.OneChar(Letter(0));
  }

  lemma PieceCases(p: Piece, quote: byte)
    requires GoodPiece(p, quote) && IsQuote(quote)
    ensures p.Same? ==> GoodChar(p.c) && PieceChars(p, quote) == [p.c] && PieceSays(p, quote) == CharMeans(p.c)
    ensures p.Delimiter? ==> GoodChar(Plain([quote])) && PieceChars(p, quote) == [Plain([quote])]
                             && PieceSays(p, quote) == CharMeans(Plain([quote]))
    ensures p.LineEnd? ==> PieceChars(p, quote) == [] && PieceSays(p, quote) == []
    ensures p.Stray? ==> GoodChar(Letter(1)) && GoodChar(Plain(p.text)) && PieceChars(p, quote) == [Letter(1), Plain(p.text)]
                         && PieceSays(p, quote) == CharMeans(Letter(1)) + CharMeans(Plain(p.text))
    ensures p.Control? ==> GoodChar(ControlChar(p.b)) && PieceChars(p, quote) == [ControlChar(p.b)]
                           && PieceSays(p, quote) == CharMeans(ControlChar(p.b))
    ensures p.DoubleQuote? ==> GoodChar(Letter(0)) && PieceChars(p, quote) == [Letter(0)]
                               && PieceSays(p, quote) == CharMeans(Letter(0))
  {
    if p.Control? { ControlIs(p.b); }
    if p.Stray? { assert LETTERS[0] == 0x22 && LETTERS[1] == 0x5C; }
    hide ControlChar;
  }

  lemma {:induction false} CharsJoin(a: seq<Char>, b: seq<Char>)
    requires GoodChars(a) && GoodChars(b)
    ensures GoodChars(a + b) && CharsText(a + b) == CharsText(a) + CharsText(b)
    ensures CharsMean(a + b) == CharsMean(a) + CharsMean(b)
    decreases |a|
  {
    hide GoodChar, CharText, CharMeans;
    if a == [] {
      assert a + b == b;
    } else {
      CharsJoin(a[1..], b);
      assert (a + b)[1..] == a[1..] + b;
    }
  }

  /** A literal denotes what its pieces do. */
  lemma {:induction false} PiecesAre(ps: seq<Piece>, quote: byte)
    requires GoodPieces(ps, quote) && IsQuote(quote)
    ensures GoodChars(PiecesChars(ps, quote)) && CharsMean(PiecesChars(ps, quote)) == PiecesSay(ps, quote)
    decreases |ps|
  {
    hide PieceChars, PieceSays, GoodPiece, GoodChar;
    if ps != [] {
      PieceIs(ps[0], quote);
      PiecesAre(ps[1..], quote);
      CharsJoin(PieceChars(ps[0], quote), PiecesChars(ps[1..], quote));
    }
  }

  // --- Copying a literal ---

  /** Bytes that are copied one by one. */
  predicate Copied(s: Bytes, quote: byte) { forall i :: 0 <= i < |s| ==> Bare(s[i]) && s[i] != quote }

  lemma CopiesByte(inp: Bytes, c: Core, quote: byte)
    requires c.pos < |inp| && Bare(inp[c.pos]) && inp[c.pos] != quote
    ensures RepairSpec.CopyString(inp, c, quote)
         == RepairSpec.CopyString(inp, Put(c, [inp[c.pos]], []).(pos := c.pos + 1), quote)
  {
    PutEmit(c, [inp[c.pos]]);
    hide Put, RepairSpec.CopyEscape, ShortEscape;
  }

  lemma {:induction false} CopiesBytes(inp: Bytes, c: Core, quote: byte, s: Bytes)
    requires Holds(inp, c.pos, s) && Copied(s, quote)
    ensures c.pos + |s| <= |inp|
    ensures RepairSpec.CopyString(inp, c, quote)
         == RepairSpec.CopyString(inp, Put(c, s, []).(pos := c.pos + |s|), quote)
    decreases |s|
  {
    hide *;
    HoldsFits(inp, c.pos, s);
    if s == [] {
      PutNothing(c);
    } else {
      CopiedSplit(s, quote);
      HoldsParts(inp, c.pos, [s[0]], s[1..]);
      CopiesByte(inp, c, quote);
      CopiesBytes(inp, Put(c, [s[0]], []).(pos := c.pos + 1), quote, s[1..]);
      PutOn(c, [s[0]], [], c.pos + 1, s[1..], []);
      NoFlaws();
    }
  }

  lemma CopiedSplit(s: Bytes, quote: byte)
    requires s != [] && Copied(s, quote)
    ensures s == [s[0]] + s[1..] && Bare(s[0]) && s[0] != quote && Copied(s[1..], quote)
  {
  }

  lemma NoFlaws()
    ensures var none: seq<Kind> := []; none + none == none
  {
  }

  lemma PlainCopied(s: Bytes, quote: byte)
    requires Utf8.IsUtf8Char(s) && s[0] >= 0x20 && s[0] != 0x22 && s[0] != 0x5C && s[0] != quote && quote < 0x80
    ensures Copied(s, quote)
  {
  }

  /** A backslash and what follows it. */
  lemma CopiesEscape(inp: Bytes, c: Core, quote: byte, out: Bytes, fl: seq<Kind>, e: nat)
    requires c.pos < |inp| && inp[c.pos] == 0x5C && quote != 0x5C && c.pos < e <= |inp|
    requires RepairSpec.CopyEscape(inp, c, quote) == Put(c, out, fl).(pos := e)
    ensures RepairSpec.CopyString(inp, c, quote) == RepairSpec.CopyString(inp, Put(c, out, fl).(pos := e), quote)
  {
    hide Put, RepairSpec.CopyEscape, ShortEscape;
  }

  lemma EscapesLetter(inp: Bytes, c: Core, quote: byte, k: nat)
    requires k < 8 && Holds(inp, c.pos, [0x5C, LETTERS[k]])
    ensures c.pos + 2 <= |inp| && inp[c.pos] == 0x5C
    ensures RepairSpec.CopyEscape(inp, c, quote) == Put(c, [0x5C, LETTERS[k]], []).(pos := c.pos + 2)
  {
    HoldsFits(inp, c.pos, [0x5C, LETTERS[k]]);
    EscapeLaws.LetterReads(k);
    assert inp[c.pos + 0] == 0x5C && inp[c.pos + 1] == LETTERS[k];
    PutEmit(c, [0x5C, LETTERS[k]]);
    hide Put, SimpleEscape, LETTERS, Hex4;
  }

  lemma EscapesUnit(inp: Bytes, c: Core, quote: byte, u: nat, caps: seq<bool>)
    requires u < 0x1_0000 && |caps| == 4 && Holds(inp, c.pos, UnitText(u, caps))
    ensures c.pos + 6 <= |inp| && inp[c.pos] == 0x5C
    ensures RepairSpec.CopyEscape(inp, c, quote) == Put(c, UnitText(u, caps), []).(pos := c.pos + 6)
  {
    EscapeLaws.UnitReads(u, caps, inp, c.pos);
    PutEmit(c, UnitText(u, caps));
    UIsNoLetter();
    hide Put, Hex4, UnitText, SimpleEscape;
  }

  lemma UIsNoLetter()
    ensures SimpleEscape(LOWER_U).None? && LOWER_U == 0x75 && SimpleEscape(0x27).None? && SimpleEscape(0x60).None?
    ensures SimpleEscape(0x0A).None?
  {
  }

  lemma EscapesDelimiter(inp: Bytes, c: Core, quote: byte)
    requires (quote == 0x27 || quote == 0x60) && Holds(inp, c.pos, [0x5C, quote])
    ensures c.pos + 2 <= |inp| && inp[c.pos] == 0x5C
    ensures RepairSpec.CopyEscape(inp, c, quote) == Put(c, [quote], []).(pos := c.pos + 2)
  {
    HoldsFits(inp, c.pos, [0x5C, quote]);
    assert inp[c.pos + 0] == 0x5C && inp[c.pos + 1] == quote;
    UIsNoLetter();
    PutEmit(c, [quote]);
    hide Put, SimpleEscape, Hex4;
  }

  lemma EscapesLineEnd(inp: Bytes, c: Core, quote: byte)
    requires IsQuote(quote) && Holds(inp, c.pos, [0x5C, 0x0A])
    ensures c.pos + 2 <= |inp| && inp[c.pos] == 0x5C
    ensures RepairSpec.CopyEscape(inp, c, quote) == Put(c, [], [RepairSpec.EscapeSyntax]).(pos := c.pos + 2)
  {
    HoldsFits(inp, c.pos, [0x5C, 0x0A]);
    assert inp[c.pos + 0] == 0x5C && inp[c.pos + 1] == 0x0A;
    UIsNoLetter();
    PutFix(c, RepairSpec.EscapeSyntax);
    hide Put, SimpleEscape, Hex4;
  }

  lemma EscapesStray(inp: Bytes, c: Core, quote: byte)
    requires c.pos + 2 <= |inp| && inp[c.pos] == 0x5C && inp[c.pos + 1] !in LETTERS && inp[c.pos + 1] != 0x75
    requires inp[c.pos + 1] != quote && inp[c.pos + 1] >= 0x20
    ensures RepairSpec.CopyEscape(inp, c, quote) == Put(c, [0x5C, 0x5C], [RepairSpec.EscapeSyntax]).(pos := c.pos + 1)
  {
    forall k | 0 <= k < 8 ensures inp[c.pos + 1] != LETTERS[k] { assert LETTERS[k] in LETTERS; }
    EscapeLaws.OtherLetters(inp[c.pos + 1]);
    PutFixEmit(c, RepairSpec.EscapeSyntax, [0x5C, 0x5C]);
    hide Put, SimpleEscape, Hex4, LETTERS;
  }

  lemma CopiesControl(inp: Bytes, c: Core, quote: byte)
    requires c.pos < |inp| && inp[c.pos] < 0x20 && IsQuote(quote)
    ensures RepairSpec.CopyString(inp, c, quote)
         == RepairSpec.CopyString(inp, Put(c, ShortEscape(inp[c.pos]), [RepairSpec.EscapeSyntax]).(pos := c.pos + 1), quote)
  {
    PutFixEmit(c, RepairSpec.EscapeSyntax, ShortEscape(inp[c.pos]));
    hide Put, RepairSpec.CopyEscape, ShortEscape;
  }

  lemma CopiesDoubleQuote(inp: Bytes, c: Core, quote: byte)
    requires c.pos < |inp| && inp[c.pos] == 0x22 && quote != 0x22
    ensures RepairSpec.CopyString(inp, c, quote)
         == RepairSpec.CopyString(inp, Put(c, [0x5C, 0x22], []).(pos := c.pos + 1), quote)
  {
    PutEmit(c, [0x5C, 0x22]);
    hide Put, RepairSpec.CopyEscape, ShortEscape;
  }

  /** Copying goes on after a piece. */
  ghost predicate CopiesOn(inp: Bytes, c: Core, quote: byte, out: Bytes, fl: seq<Kind>, e: nat)
  {
    && c.pos <= e <= |inp| && RepairSpec.CopyString(inp, c, quote)
                              == RepairSpec.CopyString(inp, Put(c, out, fl).(pos := e), quote)
  }

  lemma SameCopied(x: Char, inp: Bytes, c: Core, quote: byte)
    requires GoodPiece(Same(x), quote) && IsQuote(quote) && Holds(inp, c.pos, CharText(x))
    ensures CopiesOn(inp, c, quote, CharText(x), [], c.pos + |CharText(x)|)
  {
    hide Put, Holds, RepairSpec.CopyString, RepairSpec.CopyEscape, UnitText;
    match x
    case Plain(s) =>
      PlainCopied(s, quote);
      CopiesBytes(inp, c, quote, s);
    case Letter(k) =>
      EscapesLetter(inp, c, quote, k);
      CopiesEscape(inp, c, quote, [0x5C, LETTERS[k]], [], c.pos + 2);
    case Unit(u, caps) =>
      EscapesUnit(inp, c, quote, u, caps);
      CopiesEscape(inp, c, quote, UnitText(u, caps), [], c.pos + 6);
    case Pair(hi, lo, caps) =>
      var a, b := UnitText(hi, caps[..4]), UnitText(lo, caps[4..]);
      HoldsParts(inp, c.pos, a, b);
      EscapesUnit(inp, c, quote, hi, caps[..4]);
      CopiesEscape(inp, c, quote, a, [], c.pos + 6);
      var d := Put(c, a, []).(pos := c.pos + 6);
      EscapesUnit(inp, d, quote, lo, caps[4..]);
      CopiesEscape(inp, d, quote, b, [], c.pos + 12);
      PutOn(c, a, [], c.pos + 6, b, []);
      NoFlaws();
  }

  lemma StrayCopied(s: Bytes, inp: Bytes, c: Core, quote: byte)
    requires GoodPiece(Stray(s), quote) && IsQuote(quote) && Holds(inp, c.pos, [0x5C] + s)
    ensures CopiesOn(inp, c, quote, [0x5C, 0x5C] + s, [RepairSpec.EscapeSyntax], c.pos + 1 + |s|)
  {
    hide *;
    HoldsParts(inp, c.pos, [0x5C], s);
    HoldsAt(inp, c.pos, [0x5C], 0);
    StrayIs(s, quote);
    HoldsAt(inp, c.pos + 1, s, 0);
    HoldsFits(inp, c.pos + 1, s);
    var odd := [RepairSpec.EscapeSyntax];
    EscapesStray(inp, c, quote);
    CopiesEscape(inp, c, quote, [0x5C, 0x5C], odd, c.pos + 1);
    CopiesBytes(inp, Put(c, [0x5C, 0x5C], odd).(pos := c.pos + 1), quote, s);
    PutOn(c, [0x5C, 0x5C], odd, c.pos + 1, s, []);
    assert odd + [] == odd;
    CopiesTo(inp, c, quote, [0x5C, 0x5C] + s, odd, c.pos + 1 + |s|);
  }

  lemma StrayIs(s: Bytes, quote: byte)
    requires GoodPiece(Stray(s), quote) && IsQuote(quote)
    ensures s != [] && s[0] !in LETTERS && s[0] != 0x75 && s[0] != quote && s[0] >= 0x20 && Copied(s, quote) && quote != 0x5C
  {
    NoQuoteLetter();
    PlainCopied(s, quote);
    hide LETTERS;
  }

  lemma CopiesTo(inp: Bytes, c: Core, quote: byte, out: Bytes, fl: seq<Kind>, e: nat)
    requires c.pos <= e <= |inp|
    requires RepairSpec.CopyString(inp, c, quote) == RepairSpec.CopyString(inp, Put(c, out, fl).(pos := e), quote)
    ensures CopiesOn(inp, c, quote, out, fl, e)
  {
  }

  lemma NoQuoteLetter()
    ensures 0x22 in LETTERS && 0x5C in LETTERS
  {
    assert LETTERS[0] == 0x22 && LETTERS[1] == 0x5C;
  }

  lemma PieceCopied(p: Piece, inp: Bytes, c: Core, quote: byte)
    requires GoodPiece(p, quote) && IsQuote(quote) && Holds(inp, c.pos, PieceText(p, quote))
    ensures GoodChars(PieceChars(p, quote))
    ensures CopiesOn(inp, c, quote, CharsText(PieceChars(p, quote)), PieceFlaws(p), c.pos + |PieceText(p, quote)|)
  {
    hide *;
    PieceWritten(p, quote);
    PieceTexts(p, quote);
    match p
    case Same(x) => SameCopied(x, inp, c, quote);
    case Stray(s) => StrayCopied(s, inp, c, quote);
    case Delimiter =>
      EscapesDelimiter(inp, c, quote);
      CopiesEscape(inp, c, quote, [quote], [], c.pos + 2);
      CopiesTo(inp, c, quote, [quote], [], c.pos + 2);
    case LineEnd =>
      EscapesLineEnd(inp, c, quote);
      CopiesEscape(inp, c, quote, [], [RepairSpec.EscapeSyntax], c.pos + 2);
      CopiesTo(inp, c, quote, [], [RepairSpec.EscapeSyntax], c.pos + 2);
    case Control(b) =>
      HoldsFits(inp, c.pos, [b]);
      HoldsAt(inp, c.pos, [b], 0);
      CopiesControl(inp, c, quote);
      CopiesTo(inp, c, quote, ShortEscape(b), [RepairSpec.EscapeSyntax], c.pos + 1);
    case DoubleQuote =>
      HoldsFits(inp, c.pos, [0x22]);
      HoldsAt(inp, c.pos, [0x22], 0);
      CopiesDoubleQuote(inp, c, quote);
      CopiesTo(inp, c, quote, [0x5C, 0x22], [], c.pos + 1);
  }

  lemma PieceTexts(p: Piece, quote: byte)
    requires GoodPiece(p, quote) && IsQuote(quote)
    ensures PieceText(p, quote) == match p
                                   case Same(c) => CharText(c)
                                   case Delimiter => [0x5C, quote]
                                   case LineEnd => [0x5C, 0x0A]
                                   case Stray(s) => [0x5C] + s
                                   case Control(b) => [b]
                                   case DoubleQuote => [0x22]
    ensures PieceFlaws(p) == if p.LineEnd? || p.Stray? || p.Control? then [RepairSpec.EscapeSyntax] else []
    ensures p.Delimiter? || p.DoubleQuote? ==> quote == 0x27 || quote == 0x60
    ensures p.Control? ==> p.b < 0x20
    ensures quote != 0x5C
  {
    hide CharText;
  }

  lemma PieceWritten(p: Piece, quote: byte)
    requires GoodPiece(p, quote) && IsQuote(quote)
    ensures GoodChars(PieceChars(p, quote))
    ensures CharsText(PieceChars(p, quote)) == match p
                                               case Same(c) => CharText(c)
                                               case Delimiter => [quote]
                                               case LineEnd => []
                                               case Stray(s) => [0x5C, 0x5C] + s
                                               case Control(b) => ShortEscape(b)
                                               case DoubleQuote => [0x5C, 0x22]
  {
    hide *;
    PieceIs(p, quote);
    PieceCases(p, quote);
    NoChars();
    WrittenCases(p, quote);
    match p
    case Same(c) => EscapeLaws.OneChar(c);
    case Delimiter => EscapeLaws.OneChar(Plain([quote]));
    case LineEnd =>
    case Stray(s) => TwoChars(Letter(1), Plain(s));
    case Control(b) => EscapeLaws.OneChar(ControlChar(b));
    case DoubleQuote => EscapeLaws.OneChar(Letter(0));
  }

  lemma WrittenCases(p: Piece, quote: byte)
    requires GoodPiece(p, quote) && IsQuote(quote)
    ensures CharText(Letter(0)) == [0x5C, 0x22] && CharText(Letter(1)) == [0x5C, 0x5C]
    ensures p.Delimiter? ==> GoodChar(Plain([quote])) && CharText(Plain([quote])) == [quote]
    ensures p.Stray? ==> GoodChar(Plain(p.text)) && CharText(Plain(p.text)) == p.text
    ensures p.Control? ==> GoodChar(ControlChar(p.b)) && CharText(ControlChar(p.b)) == ShortEscape(p.b)
  {
    if p.Control? { ControlIs(p.b); }
    NoQuoteLetter();
    assert LETTERS[0] == 0x22 && LETTERS[1] == 0x5C;
    hide ControlChar, ShortEscape;
  }

  lemma ClosesLiteral(inp: Bytes, c: Core, quote: byte)
    requires c.pos < |inp| && inp[c.pos] == quote
    ensures RepairSpec.CopyString(inp, c, quote) == Put(c, [0x22], []).(pos := c.pos + 1)
  {
    PutEmit(c, [0x22]);
    hide Put, RepairSpec.CopyEscape, ShortEscape;
  }

  lemma PiecesUnfold(ps: seq<Piece>, quote: byte)
    requires ps != [] && GoodPieces(ps, quote) && IsQuote(quote)
    ensures GoodPiece(ps[0], quote) && GoodPieces(ps[1..], quote)
    ensures PiecesText(ps, quote) == PieceText(ps[0], quote) + PiecesText(ps[1..], quote)
    ensures PiecesFlaws(ps) == PieceFlaws(ps[0]) + PiecesFlaws(ps[1..])
    ensures GoodChars(PieceChars(ps[0], quote)) && GoodChars(PiecesChars(ps[1..], quote))
    ensures GoodChars(PiecesChars(ps, quote))
    ensures CharsText(PiecesChars(ps, quote)) == CharsText(PieceChars(ps[0], quote)) + CharsText(PiecesChars(ps[1..], quote))
  {
    hide PieceChars, PieceText, PieceFlaws, GoodPiece, GoodChars, CharsText;
    PieceIs(ps[0], quote);
    PiecesAre(ps, quote);
    PiecesAre(ps[1..], quote);
    CharsJoin(PieceChars(ps[0], quote), PiecesChars(ps[1..], quote));
  }

  /** The pieces of a literal up to its closing delimiter. */
  lemma {:induction false} PiecesCopied(ps: seq<Piece>, inp: Bytes, c: Core, quote: byte)
    requires GoodPieces(ps, quote) && IsQuote(quote) && Holds(inp, c.pos, PiecesText(ps, quote) + [quote])
    ensures c.pos <= |inp| && GoodChars(PiecesChars(ps, quote))
    ensures RepairSpec.CopyString(inp, c, quote)
         == Put(c, CharsText(PiecesChars(ps, quote)) + [0x22], PiecesFlaws(ps))
            .(pos := c.pos + |PiecesText(ps, quote)| + 1)
    decreases |ps|
  {
    hide *;
    if ps == [] {
      NoPieces(quote);
      NothingBefore([quote]);
      NothingBefore([0x22]);
      HoldsAt(inp, c.pos, [quote], 0);
      HoldsFits(inp, c.pos, [quote]);
      ClosesLiteral(inp, c, quote);
    } else {
      PiecesUnfold(ps, quote);
      var a, b := PieceText(ps[0], quote), PiecesText(ps[1..], quote);
      Associates(a, b, [quote]);
      HoldsParts(inp, c.pos, a, b + [quote]);
      PieceCopied(ps[0], inp, c, quote);
      var w, fl, e := CharsText(PieceChars(ps[0], quote)), PieceFlaws(ps[0]), c.pos + |a|;
      CopiedOn(inp, c, quote, w, fl, e);
      PiecesCopied(ps[1..], inp, Put(c, w, fl).(pos := e), quote);
      var x, fx := CharsText(PiecesChars(ps[1..], quote)), PiecesFlaws(ps[1..]);
      PutOn(c, w, fl, e, x + [0x22], fx);
      Associates(w, x, [0x22]);
    }
  }

  lemma NoPieces(quote: byte)
    ensures PiecesText([], quote) == [] && PiecesFlaws([]) == [] && PiecesChars([], quote) == []
    ensures GoodChars([]) && CharsText([]) == []
  {
  }

  lemma CopiedOn(inp: Bytes, c: Core, quote: byte, out: Bytes, fl: seq<Kind>, e: nat)
    requires CopiesOn(inp, c, quote, out, fl, e)
    ensures c.pos <= e <= |inp|
    ensures RepairSpec.CopyString(inp, c, quote) == RepairSpec.CopyString(inp, Put(c, out, fl).(pos := e), quote)
  {
  }

  lemma PutOn(c: Core, a: Bytes, fa: seq<Kind>, e: nat, b: Bytes, fb: seq<Kind>)
    ensures Put(Put(c, a, fa).(pos := e), b, fb) == Put(c, a + b, fa + fb).(pos := e)
  {
    hide Put;
    PutPut(c, a, fa, b, fb);
    PutMoves(Put(c, a, fa), b, fb, e);
  }

  /** A literal between any of the delimiters is written as the string it denotes. */
  lemma QuoteWritten(quote: byte, ps: seq<Piece>, inp: Bytes, c: Core)
    requires IsQuote(quote) && GoodPieces(ps, quote) && Holds(inp, c.pos, [quote] + PiecesText(ps, quote) + [quote])
    ensures c.pos < |inp| && inp[c.pos] == quote && GoodChars(PiecesChars(ps, quote))
    ensures RepairSpec.CopyLiteral(inp, c)
         == Put(c, Quoted(PiecesChars(ps, quote)), QuoteFlaws(quote, ps)).(pos := c.pos + |PiecesText(ps, quote)| + 2)
  {
    hide *;
    var t := PiecesText(ps, quote);
    Associates([quote], t, [quote]);
    HoldsParts(inp, c.pos, [quote], t + [quote]);
    HoldsAt(inp, c.pos, [quote], 0);
    HoldsFits(inp, c.pos, [quote]);
    OpensLiteral(inp, c);
    var d := Put(c, [0x22], OpeningFlaws(quote)).(pos := c.pos + 1);
    PiecesCopied(ps, inp, d, quote);
    var x := CharsText(PiecesChars(ps, quote));
    PutOn(c, [0x22], OpeningFlaws(quote), c.pos + 1, x + [0x22], PiecesFlaws(ps));
    Associates([0x22], x, [0x22]);
    QuotedIs(quote, ps);
  }

  function OpeningFlaws(quote: byte): seq<Kind> { if quote == 0x22 then [] else [RepairSpec.Quotes] }

  lemma QuotedIs(quote: byte, ps: seq<Piece>)
    requires GoodChars(PiecesChars(ps, quote))
    ensures Quoted(PiecesChars(ps, quote)) == [0x22] + CharsText(PiecesChars(ps, quote)) + [0x22]
    ensures QuoteFlaws(quote, ps) == OpeningFlaws(quote) + PiecesFlaws(ps)
  {
  }

  lemma OpensLiteral(inp: Bytes, c: Core)
    requires c.pos < |inp|
    ensures RepairSpec.CopyLiteral(inp, c)
         == RepairSpec.CopyString(inp, Put(c, [0x22], OpeningFlaws(inp[c.pos])).(pos := c.pos + 1), inp[c.pos])
  {
    PutEmit(c, [0x22]);
    PutFixEmit(c, RepairSpec.Quotes, [0x22]);
    hide Put, RepairSpec.CopyString;
  }
}
