/** The repairer's main loop over the tokens, spaces and comments of a loose text. */
module LooseTokens {
  import opened Bytes
  import opened Texts
  import opened Options
  import opened JsonValue
  import opened Scan
  import opened SerializerSpec
  import opened Grammar
  import opened LooseText
  import opened NumberLaws
  import opened RepairedWords
  import opened RepairedNumbers
  import RepairAccepts
  import RepairSpec

  // --- What a token is written as ---

  ghost function TokenTree(k: Token): Grammar.Text
    requires GoodToken(k)
  {
    match k
    case Word(cs) => WordText(cs)
    case Number(f) => if NumeralNumber(f).None? then TNull else TNumber(NumeralNumber(f).value)
    case Other(t) => TString(Singles(t))
    case Quote(q, ps) => TString(PiecesChars(ps, q))
  }

  ghost function KeyChars(k: Token): seq<Char>
    requires GoodToken(k)
  {
    match k
    case Word(cs) => cs
    case Quote(q, ps) => PiecesChars(ps, q)
    case _ => Singles(TokenText(k))
  }

  lemma RunByteBare(c: byte)
    requires RunByte(c)
    ensures Bare(c) && c < 0x80
  {
  }

  lemma RunIsText(t: Bytes)
    requires RunBytes(t)
    ensures GoodChars(Singles(t)) && CharsText(Singles(t)) == t && CharsMean(Singles(t)) == t
    ensures PrintString(t, false) == Quoted(Singles(t))
  {
    hide RunByte, Bare, CharsText, CharsMean, GoodChars, PrintString;
    forall i | 0 <= i < |t| ensures Bare(t[i]) && t[i] < 0x80 { RunByteBare(t[i]); }
    SinglesAre(t);
    BarePrints(t);
  }

  lemma PartsRun(a: Bytes, b: Bytes)
    requires RunBytes(a) && RunBytes(b)
    ensures RunBytes(a + b)
  {
    hide RunByte;
  }

  lemma BytesRun(t: Bytes)
    requires NumberBytes(t)
    ensures RunBytes(t)
  {
  }

  lemma PointsRun(k: nat)
    ensures RunBytes(Points(k)) && RunBytes(Zeros(k))
  {
  }

  lemma {:induction false} SpreadRuns(body: Bytes, points: seq<nat>)
    requires |points| == |body| + 1 && RunBytes(body)
    ensures RunBytes(Spread(body, points))
    decreases |body|
  {
    hide RunByte, Points;
    PointsRun(points[0]);
    if body != [] {
      SpreadRuns(body[1..], points[1..]);
      PartsRun([body[0]], Spread(body[1..], points[1..]));
      PartsRun(Points(points[0]), [body[0]] + Spread(body[1..], points[1..]));
    } else {
      NothingMore(Points(points[0]));
    }
  }

  lemma SignRuns(s: Option<byte>)
    requires MaybeSign(s)
    ensures RunBytes(SignText(s))
  {
  }

  lemma DigitsRun(h: HexDigits)
    requires GoodHex(h)
    ensures RunBytes(DigitsText(h.digits, h.caps))
  {
    var t := DigitsText(h.digits, h.caps);
    forall i | 0 <= i < |t| ensures RunByte(t[i]) { DigitRuns(h.digits[i], h.caps[i]); }
  }

  lemma DigitRuns(d: nat, cap: bool)
    requires d < 16
    ensures RunByte(Digit(d, cap))
  {
  }

  lemma MarkRuns(m: byte)
    requires IsMark(m)
    ensures RunBytes([0x30, m])
  {
  }

  lemma HexRuns(h: HexDigits)
    requires GoodHex(h)
    ensures RunBytes(HexText(h))
  {
    hide RunByte, RunBytes, Digit;
    DigitsRun(h);
    SignRuns(h.sign);
    NothingRuns();
    var m := if h.mark.Some? then [0x30, h.mark.value] else [];
    if h.mark.Some? { MarkRuns(h.mark.value); }
    PartsRun(SignText(h.sign), m);
    PartsRun(SignText(h.sign) + m, DigitsText(h.digits, h.caps));
  }

  /** Every numeral is a run of letters, digits, signs and points that begins like a number. */
  lemma NumeralRuns(f: Numeral)
    requires Shaped(f)
    ensures RunBytes(NumeralText(f))
  {
    hide RunByte, RunBytes, NumberText, HexText, Spread, GoodNumber, GoodHex;
    match f
    case Exact(n) => NumberHasBytes(n); BytesRun(NumberText(n));
    case Infinite(s) => InfinityRuns(s);
    case Hex(s, m, h, rest) =>
      ShapedHex(f);
      HexRuns(h);
      SignRuns(s);
      MarkRuns(m);
      PartsRun(SignText(s), [0x30, m]);
      PartsRun(SignText(s) + [0x30, m], HexText(h));
      PartsRun(SignText(s) + [0x30, m] + HexText(h), rest);
    case Off(s, zeros, _, body, points, rest, _) =>
      OffIs(f);
      BytesRun(body);
      SpreadRuns(body, points);
      SignRuns(s);
      PointsRun(zeros);
      PartsRun(SignText(s), Zeros(zeros));
      PartsRun(SignText(s) + Zeros(zeros), Spread(body, points));
      PartsRun(SignText(s) + Zeros(zeros) + Spread(body, points), rest);
  }

  lemma InfinityRuns(s: byte)
    requires IsSign(s)
    ensures RunBytes(NumeralText(Infinite(s)))
  {
  }

  lemma NumeralBegins(f: Numeral)
    requires Shaped(f)
    ensures var t := NumeralText(f); t != [] && NumberStart(t[0])
  {
    match f
    case Exact(n) => NumberFront(n); hide GoodNumber, NumberText;
    case Infinite(s) =>
    case Hex(s, m, h, rest) => HexBegins(s, m, HexText(h), rest); hide HexText, GoodHex, RunBytes;
    case Off(s, zeros, _, body, points, rest, _) => OffBegins(f);
  }

  lemma HexBegins(s: Option<byte>, m: byte, u: Bytes, rest: Bytes)
    requires MaybeSign(s)
    ensures var t := SignText(s) + [0x30, m] + u + rest; t != [] && NumberStart(t[0])
  {
  }

  lemma OffBegins(f: Numeral)
    requires f.Off? && Shaped(f)
    ensures var t := NumeralText(f); t != [] && NumberStart(t[0])
  {
    hide *;
    OffIs(f);
    OffFront(f);
    OffSigned(f);
    ZerosFront(f.zeros, OffTail(f));
    StartsSigned(f.sign, Zeros(f.zeros) + OffTail(f));
    OffFirst(f);
  }

  lemma StartsSigned(s: Option<byte>, x: Bytes)
    requires MaybeSign(s) && x != []
    ensures (SignText(s) + x)[0] == (if s.Some? then s.value else x[0]) && (s.Some? ==> NumberStart(s.value))
    ensures NumberStart(0x30) && NumberStart(0x2E)
  {
  }

  /** Without a sign or zeros, such a token begins with a point or a digit. */
  lemma OffFirst(f: Numeral)
    requires f.Off? && Shaped(f) && OffTail(f) != []
    ensures f.sign.None? ==> NumberStart(OffTail(f)[0])
  {
    OffIs(f);
    if !f.lead {
      BareFront(f);
      NumberFront(f.n);
      hide NumberText, GoodNumber, Spread, Pointed, NumberBytes, RunBytes, Shaped, Strays, Filled;
      SpreadUnfold(f.body, f.points, f.rest);
      NothingBefore(f.body);
    }
  }

  lemma NumberTree(f: Numeral)
    requires GoodNumeral(f)
    ensures var x := TokenTree(Number(f)); Good(x) && Means(x) == NumeralSays(f)
    ensures TextBytes(TokenTree(Number(f)))
         == if NumeralNumber(f).None? then [0x6E, 0x75, 0x6C, 0x6C] else NumberText(NumeralNumber(f).value)
  {
    hide Shaped, NumberMeans, NumberText, GoodNumber, NumeralNumber, IsExact;
  }

  lemma TextTree(cs: seq<Char>)
    requires GoodChars(cs)
    ensures Good(TString(cs)) && Means(TString(cs)) == Str(CharsMean(cs)) && TextBytes(TString(cs)) == Quoted(cs)
  {
    hide GoodChars, CharsMean, Quoted;
  }

  lemma QuoteIs(quote: byte, ps: seq<Piece>)
    requires GoodToken(Quote(quote, ps))
    ensures IsQuote(quote) && GoodPieces(ps, quote)
    ensures TokenText(Quote(quote, ps)) == [quote] + PiecesText(ps, quote) + [quote]
    ensures TokenTree(Quote(quote, ps)) == TString(PiecesChars(ps, quote))
    ensures KeyChars(Quote(quote, ps)) == PiecesChars(ps, quote)
    ensures TokenFlaws(Quote(quote, ps)) == QuoteFlaws(quote, ps) == KeyFlaws(Quote(quote, ps))
    ensures TokenSays(Quote(quote, ps)) == Str(PiecesSay(ps, quote)) && KeySays(Quote(quote, ps)) == PiecesSay(ps, quote)
  {
    hide GoodPieces, PiecesText, PiecesChars, PiecesSay, QuoteFlaws;
  }

  /** The text of a token denotes what the token does. */
  lemma TokenTreeIs(k: Token)
    requires GoodToken(k)
    ensures Good(TokenTree(k)) && Means(TokenTree(k)) == TokenSays(k)
  {
    match k
    case Word(cs) => WordTextSays(cs); hide GoodWord, WordText, Good, Means, WordSays;
    case Number(f) => NumberTree(f); hide GoodNumeral, Good, Means, NumeralSays;
    case Other(t) => OtherIs(t); RunIsText(t); TextTree(Singles(t)); hide GoodOther, Good, Means, Singles, CharsMean, GoodChars;
    case Quote(q, ps) =>
      QuoteIs(q, ps);
      PiecesAre(ps, q);
      TextTree(PiecesChars(ps, q));
      hide GoodPieces, Good, Means, PiecesChars, CharsMean, GoodChars, PiecesSay;
  }

  lemma KeyIs(k: Token)
    requires GoodToken(k)
    ensures GoodChars(KeyChars(k)) && CharsMean(KeyChars(k)) == KeySays(k)
    ensures !k.Quote? ==> PrintString(TokenText(k), false) == Quoted(KeyChars(k)) && KeyFlaws(k) == [RepairSpec.UnquotedKey]
  {
    match k
    case Word(cs) => WordPrints(cs); hide CharsText, CharsMean, PrintString, WordStart, WordByte;
    case Number(f) =>
      NumeralRuns(f);
      RunIsText(NumeralText(f));
      hide Shaped, NumeralText, RunBytes, CharsMean, Singles, PrintString, Quoted, IsExact, GoodChars;
    case Other(t) => OtherIs(t); RunIsText(t); hide GoodOther, CharsMean, Singles, PrintString, Quoted, GoodChars;
    case Quote(q, ps) => QuoteIs(q, ps); PiecesAre(ps, q); hide GoodPieces, PiecesChars, CharsMean, GoodChars, PiecesSay;
  }

  // --- Where a token ends ---

  predicate IsSpace(b: byte) { b == 0x20 || b == 0x09 || b == 0x0A || b == 0x0D }

  /** A space, a comma, a closing bracket, a link or the start of a comment. */
  predicate Parts(b: byte)
  {
    IsSpace(b) || b == 0x2C || IsClose(b) || b == 0x3A || b == 0x3D || b == 0x2F || b == 0x23
  }

  predicate Parted(inp: Bytes, e: nat) { e < |inp| ==> Parts(inp[e]) }

  lemma PartsIs(b: byte)
    requires Parts(b)
    ensures !RepairSpec.IsWordChar(b) && !RepairSpec.IsNumberRun(b) && b != BACKTICK
  {
  }

  const BACKTICK: byte := 0x60

  lemma WordRuns(inp: Bytes, p: nat, w: Bytes)
    requires Holds(inp, p, w) && Parted(inp, p + |w|) && forall i :: 0 <= i < |w| ==> WordByte(w[i])
    ensures p + |w| <= |inp| && RepairSpec.WordEnd(inp, p) == p + |w| && inp[p..p + |w|] == w
  {
    HoldsFits(inp, p, w);
    if p + |w| < |inp| { PartsIs(inp[p + |w|]); }
    hide RepairSpec.WordEnd, Parts;
    forall k | p <= k < p + |w| ensures RepairSpec.IsWordChar(inp[k]) { assert inp[k] == w[k - p]; }
    RepairAccepts.WordEndAt(inp, p, p + |w|);
  }

  lemma RunEnds(inp: Bytes, p: nat, t: Bytes)
    requires Holds(inp, p, t) && Parted(inp, p + |t|) && RunBytes(t)
    ensures p + |t| <= |inp| && RepairSpec.NumberEnd(inp, p) == p + |t| && inp[p..p + |t|] == t
  {
    HoldsFits(inp, p, t);
    if p + |t| < |inp| { PartsIs(inp[p + |t|]); }
    hide RepairSpec.NumberEnd, Parts;
    forall k | p <= k < p + |t| ensures RepairSpec.IsNumberRun(inp[k]) { assert inp[k] == t[k - p]; }
    RepairAccepts.NumberEndAt(inp, p, p + |t|);
  }

  // --- One token ---

  /** The state after a complete value. */
  function Val(c: Core, s: Bytes, fl: seq<Kind>): Core { RepairSpec.ValueDone(Put(RepairSpec.PrepareValue(c), s, fl)) }

  lemma PrepareMoves(c: Core, p: nat)
    ensures RepairSpec.PrepareValue(c.(pos := p)) == RepairSpec.PrepareValue(c).(pos := p)
  {
    hide RepairSpec.PutComma, RepairSpec.PutKey, RepairSpec.SetTop;
    if c.frames != [] {
      var f := RepairSpec.Top(c);
      CommaMoves(c, f, p);
      var d := RepairSpec.PutComma(c, f);
      EmptyKeyMoves(d, f, p);
      TopMoves(RepairSpec.PutKey(d, f), f.(st := RepairSpec.AtValue), p);
    }
  }

  lemma CommaMoves(c: Core, f: RepairSpec.Frame, p: nat)
    ensures RepairSpec.PutComma(c.(pos := p), f) == RepairSpec.PutComma(c, f).(pos := p)
  {
  }

  lemma EmptyKeyMoves(c: Core, f: RepairSpec.Frame, p: nat)
    ensures RepairSpec.PutKey(c.(pos := p), f) == RepairSpec.PutKey(c, f).(pos := p)
  {
  }

  lemma TopMoves(c: Core, f: RepairSpec.Frame, p: nat)
    requires c.frames != []
    ensures RepairSpec.SetTop(c.(pos := p), f) == RepairSpec.SetTop(c, f).(pos := p)
  {
  }

  lemma DoneMoves(c: Core, p: nat)
    ensures RepairSpec.ValueDone(c.(pos := p)) == RepairSpec.ValueDone(c).(pos := p)
  {
  }

  lemma ValMoves(c: Core, s: Bytes, fl: seq<Kind>, p: nat)
    ensures RepairSpec.PrepareValue(c.(pos := p)) == RepairSpec.PrepareValue(c).(pos := p)
    ensures Val(c.(pos := p), s, fl) == Val(c, s, fl).(pos := p)
    ensures RepairSpec.ValueDone(c.(pos := p)) == RepairSpec.ValueDone(c).(pos := p)
  {
    hide *;
    PrepareMoves(c, p);
    var v := RepairSpec.PrepareValue(c);
    PutMoves(v, s, fl, p);
    DoneMoves(Put(v, s, fl), p);
    DoneMoves(c, p);
    ValIs(c, s, fl);
    ValIs(c.(pos := p), s, fl);
  }

  /** No space, no fence and no comment begins here. */
  lemma OneToken(inp: Bytes, c: Core, max: nat)
    requires c.pos < |inp| && !c.stop && !IsSpace(inp[c.pos]) && inp[c.pos] != 0x23 && inp[c.pos] != 0x2F
    requires inp[c.pos] == 0x60 && c.pos + 2 < |inp| ==> inp[c.pos + 1] != 0x60 || inp[c.pos + 2] != 0x60
    ensures RepairSpec.Run(inp, c, max) == RepairSpec.Run(inp, RepairSpec.TokenStep(inp, c, max), max)
  {
    hide RepairSpec.Run, RepairSpec.TokenStep;
    hide RepairSpec.AtFence;
    if RepairSpec.AtFence(inp, c.pos) { FenceBytes(inp, c.pos); }
    RepairAccepts.RunUnfolds(inp, c, max);
  }

  lemma FenceBytes(inp: Bytes, p: nat)
    requires RepairSpec.AtFence(inp, p)
    ensures p + 2 < |inp| && inp[p] == inp[p + 1] == inp[p + 2] == 0x60
  {
    var f := inp[p..p + 3];
    assert f[0] == inp[p] && f[1] == inp[p + 1] && f[2] == inp[p + 2];
  }

  lemma WordStarts(inp: Bytes, c: Core, max: nat)
    requires c.pos < |inp| && !c.stop && WordStart(inp[c.pos])
    ensures RepairSpec.Run(inp, c, max) == RepairSpec.Run(inp, RepairSpec.WordStep(inp, c), max)
  {
    hide RepairSpec.Run, RepairSpec.WordStep;
    OneToken(inp, c, max);
  }

  lemma NumberStarts(inp: Bytes, c: Core, max: nat)
    requires c.pos < |inp| && !c.stop && NumberStart(inp[c.pos])
    ensures RepairSpec.Run(inp, c, max) == RepairSpec.Run(inp, RepairSpec.NumberStep(inp, c), max)
  {
    hide RepairSpec.Run, RepairSpec.NumberStep;
    OneToken(inp, c, max);
  }

  lemma QuoteStarts(inp: Bytes, c: Core, max: nat)
    requires c.pos < |inp| && !c.stop && IsQuote(inp[c.pos])
    requires inp[c.pos] == 0x60 && c.pos + 2 < |inp| ==> inp[c.pos + 1] != 0x60 || inp[c.pos + 2] != 0x60
    ensures RepairSpec.Run(inp, c, max) == RepairSpec.Run(inp, RepairSpec.StringStep(inp, c), max)
  {
    hide RepairSpec.Run, RepairSpec.StringStep;
    OneToken(inp, c, max);
  }

  /** What a word or a number-like token leaves behind at the place of a key. */
  function KeyPut(c: Core, s: Bytes, fl: seq<Kind>): Core
    requires c.frames != []
  {
    Put(RepairSpec.PrepareKey(c), s, fl)
  }

  lemma BareKeyIs(c: Core, w: Bytes)
    requires c.frames != []
    ensures RepairSpec.BareKey(c, w) == KeyPut(c, PrintString(w, false), [RepairSpec.UnquotedKey])
  {
    PutFixEmit(RepairSpec.PrepareKey(c), RepairSpec.UnquotedKey, PrintString(w, false));
    hide Put, PrintString, RepairSpec.PrepareKey;
  }

  lemma KeyPutMoves(c: Core, s: Bytes, fl: seq<Kind>, p: nat)
    requires c.frames != []
    ensures KeyPut(c.(pos := p), s, fl) == KeyPut(c, s, fl).(pos := p)
  {
  }

  lemma WordStepIs(inp: Bytes, c: Core, w: Bytes)
    requires w != [] && WordStart(w[0]) && Holds(inp, c.pos, w) && Parted(inp, c.pos + |w|)
    requires forall i :: 0 <= i < |w| ==> WordByte(w[i])
    ensures c.pos < |inp| && inp[c.pos] == w[0] && RepairSpec.IsWordStart(inp[c.pos])
    ensures var e, r := c.pos + |w|, RepairSpec.WordStep(inp, c);
            if RepairSpec.AtKeyPosition(c) then r == RepairSpec.BareKey(c.(pos := e), w)
            else
              var v := RepairSpec.PrepareValue(c.(pos := e));
              !v.stop ==> r == RepairSpec.ValueDone(RepairSpec.WordValue(v, w))
  {
    WordRuns(inp, c.pos, w);
    HoldsAt(inp, c.pos, w, 0);
    hide RepairSpec.PrepareValue, RepairSpec.ValueDone, RepairSpec.WordValue;
    hide RepairSpec.BareKey, RepairSpec.WordEnd, WordByte, Holds;
  }

  lemma NumberStepIs(inp: Bytes, c: Core, t: Bytes)
    requires t != [] && NumberStart(t[0]) && RunBytes(t) && Holds(inp, c.pos, t) && Parted(inp, c.pos + |t|)
    ensures c.pos < |inp| && inp[c.pos] == t[0] && RepairSpec.IsNumberStart(inp[c.pos])
    ensures var e, r := c.pos + |t|, RepairSpec.NumberStep(inp, c);
            if RepairSpec.AtKeyPosition(c) then r == RepairSpec.BareKey(c.(pos := e), t)
            else
              var v := RepairSpec.PrepareValue(c.(pos := e));
              !v.stop ==>
                r == RepairSpec.ValueDone(if IsNumberText(t) then RepairSpec.Emit(v, t) else RepairSpec.RepairNumber(v, t))
  {
    RunEnds(inp, c.pos, t);
    HoldsAt(inp, c.pos, t, 0);
    hide RepairSpec.PrepareValue, RepairSpec.ValueDone, RepairSpec.RepairNumber, RepairSpec.BareKey, RepairSpec.NumberEnd,
      RunBytes, Holds, IsNumberText;
  }

  lemma StringStepIs(inp: Bytes, c: Core)
    requires c.pos < |inp|
    ensures var r := RepairSpec.StringStep(inp, c);
            if RepairSpec.AtKeyPosition(c) then r == RepairSpec.CopyLiteral(inp, RepairSpec.PrepareKey(c))
            else
              var v := RepairSpec.PrepareValue(c);
              v.pos == c.pos && (!v.stop ==> r == RepairSpec.ValueDone(RepairSpec.CopyLiteral(inp, v)))
  {
    hide RepairSpec.PrepareValue, RepairSpec.ValueDone, RepairSpec.CopyLiteral, RepairSpec.PrepareKey;
  }

  lemma NumberPut(v: Core, k: Token)
    requires GoodToken(k) && (k.Number? || k.Other?)
    ensures Good(TokenTree(k))
    ensures Put(v, TextBytes(TokenTree(k)), TokenFlaws(k)) == var t := TokenText(k);
                                                              if IsNumberText(t) then RepairSpec.Emit(v, t)
                                                              else RepairSpec.RepairNumber(v, t)
  {
    hide *;
    TokenTreeIs(k);
    match k
    case Number(f) =>
      NumberTokenIs(f);
      GoodNumeralIs(f);
      NumberTree(f);
      match f {
        case Exact(n) => NumberExact(n); PutEmit(v, NumberText(n));
        case Infinite(s) => InfiniteIs(s); InfiniteWritten(s, v);
        case Hex(_, _, _, _) => HexNumberText(f); HexWritten(f, v);
        case Off(_, _, _, _, _, _, n) => OffNumber(f); OffWritten(f, v);
      }
      NumeralFlawsAre(f);
    case Other(t) =>
      OtherTokenIs(t);
      OtherWritten(t, v);
      OtherIs(t);
      RunIsText(t);
      TextTree(Singles(t));
  }

  lemma NumberTokenIs(f: Numeral)
    requires GoodToken(Number(f))
    ensures GoodNumeral(f) && TokenText(Number(f)) == NumeralText(f) && TokenFlaws(Number(f)) == NumeralFlaws(f)
  {
    hide GoodNumeral, NumeralText, NumeralFlaws;
  }

  lemma OtherTokenIs(t: Bytes)
    requires GoodToken(Other(t))
    ensures GoodOther(t) && TokenText(Other(t)) == t && TokenFlaws(Other(t)) == [RepairSpec.Quotes]
    ensures TokenTree(Other(t)) == TString(Singles(t))
  {
    hide GoodOther;
  }

  lemma NumberExact(n: NumberToken)
    requires Shaped(Exact(n))
    ensures NumeralText(Exact(n)) == NumberText(n) && NumeralNumber(Exact(n)) == Some(n) && IsNumberText(NumberText(n))
  {
    ExactItself(n);
    ExactIsNumber(NumberText(n));
    hide IsNumberText, IsExact;
  }

  lemma InfiniteIs(s: byte)
    requires Shaped(Infinite(s))
    ensures IsSign(s) && NumeralNumber(Infinite(s)).None?
  {
  }

  lemma OffNumber(f: Numeral)
    requires f.Off? && Shaped(f)
    ensures NumeralNumber(f) == Some(f.n)
  {
    hide GoodOff;
  }

  lemma NumeralFlawsAre(f: Numeral)
    ensures NumeralFlaws(f) == match f
                               case Exact(_) => []
                               case Infinite(_) => [RepairSpec.Literal]
                               case _ => [RepairSpec.NumberSyntax]
  {
  }

  /** The token begins as its kind does. */
  lemma WordIs(cs: seq<Char>)
    requires GoodToken(Word(cs))
    ensures GoodWord(cs) && GoodChars(cs) && TokenText(Word(cs)) == CharsText(cs) && CharsText(cs) != []
    ensures WordStart(CharsText(cs)[0])
    ensures forall i :: 0 <= i < |CharsText(cs)| ==> WordByte(CharsText(cs)[i])
    ensures TokenTree(Word(cs)) == WordText(cs) && TokenFlaws(Word(cs)) == WordFlaws(CharsText(cs))
    ensures KeyChars(Word(cs)) == cs
  {
    hide CharsText, WordText, WordFlaws;
  }

  lemma RunTokenIs(k: Token)
    requires GoodToken(k) && (k.Number? || k.Other?)
    ensures var t := TokenText(k); t != [] && NumberStart(t[0]) && RunBytes(t)
  {
    hide *;
    match k
    case Number(f) =>
      NumberTokenIs(f);
      GoodNumeralIs(f);
      NumeralRuns(f);
      NumeralBegins(f);
    case Other(t) =>
      OtherTokenIs(t);
      OtherIs(t);
  }

  /** Two delimiters and what follows are no code fence. */
  lemma NoFenceHere(quote: byte, ps: seq<Piece>, inp: Bytes, p: nat)
    requires IsQuote(quote) && GoodPieces(ps, quote) && Holds(inp, p, [quote] + PiecesText(ps, quote) + [quote])
    requires Parted(inp, p + |PiecesText(ps, quote)| + 2)
    ensures p < |inp| && inp[p] == quote
    ensures quote == 0x60 && p + 2 < |inp| ==> inp[p + 1] != 0x60 || inp[p + 2] != 0x60
  {
    hide *;
    var t := PiecesText(ps, quote);
    Associates([quote], t, [quote]);
    HoldsParts(inp, p, [quote], t + [quote]);
    HoldsAt(inp, p, [quote], 0);
    HoldsFits(inp, p, [quote]);
    HoldsParts(inp, p + 1, t, [quote]);
    if quote == 0x60 && p + 2 < |inp| {
      if ps == [] {
        NoPieces(quote);
        NotTick(inp, p + 2);
      } else {
        FirstPiece(ps, quote);
        HoldsAt(inp, p + 1, t, 0);
      }
    }
  }

  lemma NotTick(inp: Bytes, p: nat)
    requires p < |inp| && Parted(inp, p)
    ensures inp[p] != 0x60
  {
  }

  lemma FirstPiece(ps: seq<Piece>, quote: byte)
    requires ps != [] && GoodPieces(ps, quote) && quote == 0x60
    ensures PiecesText(ps, quote) != [] && PiecesText(ps, quote)[0] != 0x60
  {
    PieceNotTick(ps[0]);
    hide PieceText, GoodPiece;
  }

  lemma PieceNotTick(p: Piece)
    requires GoodPiece(p, 0x60)
    ensures PieceText(p, 0x60) != [] && PieceText(p, 0x60)[0] != 0x60
  {
  }

  /** A token at the place of a value is written as what it denotes, and its flaws are noted. */
  lemma TokenRuns(k: Token, inp: Bytes, c: Core, max: nat)
    requires GoodToken(k) && Holds(inp, c.pos, TokenText(k)) && Parted(inp, c.pos + |TokenText(k)|)
    requires !c.stop && !RepairSpec.AtKeyPosition(c) && !RepairSpec.PrepareValue(c).stop
    ensures Good(TokenTree(k)) && c.pos + |TokenText(k)| <= |inp|
    ensures RepairSpec.Run(inp, c, max)
         == RepairSpec.Run(inp, Val(c, TextBytes(TokenTree(k)), TokenFlaws(k)).(pos := c.pos + |TokenText(k)|), max)
  {
    hide *;
    HoldsFits(inp, c.pos, TokenText(k));
    TokenTreeIs(k);
    var e := c.pos + |TokenText(k)|;
    ValMoves(c, TextBytes(TokenTree(k)), TokenFlaws(k), e);
    ValIs(c.(pos := e), TextBytes(TokenTree(k)), TokenFlaws(k));
    var v := RepairSpec.PrepareValue(c.(pos := e));
    match k {
      case Word(cs) =>
        WordIs(cs);
        WordStepIs(inp, c, CharsText(cs));
        WordStarts(inp, c, max);
        WordWritten(v, cs);
      case Number(_) =>
        RunTokenIs(k);
        NumberStepIs(inp, c, TokenText(k));
        NumberStarts(inp, c, max);
        NumberPut(v, k);
      case Other(_) =>
        RunTokenIs(k);
        NumberStepIs(inp, c, TokenText(k));
        NumberStarts(inp, c, max);
        NumberPut(v, k);
      case Quote(q, ps) =>
        QuoteIs(q, ps);
        QuoteLength(q, ps);
        NoFenceHere(q, ps, inp, c.pos);
        StringStepIs(inp, c);
        QuoteStarts(inp, c, max);
        var u := RepairSpec.PrepareValue(c);
        QuoteWritten(q, ps, inp, u);
        TextTree(PiecesChars(ps, q));
        ValIs(c, TextBytes(TokenTree(k)), TokenFlaws(k));
        ValMoves(Put(u, TextBytes(TokenTree(k)), TokenFlaws(k)), [], [], e);
    }
  }

  lemma QuoteLength(quote: byte, ps: seq<Piece>)
    requires GoodPieces(ps, quote)
    ensures |[quote] + PiecesText(ps, quote) + [quote]| == |PiecesText(ps, quote)| + 2
  {
    hide *;
  }

  lemma ValIs(c: Core, s: Bytes, fl: seq<Kind>)
    ensures Val(c, s, fl) == RepairSpec.ValueDone(Put(RepairSpec.PrepareValue(c), s, fl))
  {
  }

  /** A token at the place of a key is written as the string it denotes. */
  lemma KeyRuns(k: Token, inp: Bytes, c: Core, max: nat)
    requires GoodToken(k) && Holds(inp, c.pos, TokenText(k)) && Parted(inp, c.pos + |TokenText(k)|)
    requires !c.stop && c.frames != [] && RepairSpec.AtKeyPosition(c)
    ensures GoodChars(KeyChars(k)) && c.pos + |TokenText(k)| <= |inp|
    ensures RepairSpec.Run(inp, c, max)
         == RepairSpec.Run(inp, KeyPut(c, Quoted(KeyChars(k)), KeyFlaws(k)).(pos := c.pos + |TokenText(k)|), max)
  {
    hide *;
    HoldsFits(inp, c.pos, TokenText(k));
    KeyIs(k);
    var e := c.pos + |TokenText(k)|;
    KeyPutMoves(c, Quoted(KeyChars(k)), KeyFlaws(k), e);
    match k {
      case Word(cs) =>
        WordIs(cs);
        WordStepIs(inp, c, CharsText(cs));
        WordStarts(inp, c, max);
        BareKeyIs(c.(pos := e), TokenText(k));
      case Number(_) =>
        RunTokenIs(k);
        NumberStepIs(inp, c, TokenText(k));
        NumberStarts(inp, c, max);
        BareKeyIs(c.(pos := e), TokenText(k));
      case Other(_) =>
        RunTokenIs(k);
        NumberStepIs(inp, c, TokenText(k));
        NumberStarts(inp, c, max);
        BareKeyIs(c.(pos := e), TokenText(k));
      case Quote(q, ps) =>
        QuoteIs(q, ps);
        QuoteLength(q, ps);
        NoFenceHere(q, ps, inp, c.pos);
        StringStepIs(inp, c);
        QuoteStarts(inp, c, max);
        QuoteWritten(q, ps, inp, RepairSpec.PrepareKey(c));
        KeyPutIs(c, Quoted(KeyChars(k)), KeyFlaws(k));
    }
  }

  lemma KeyPutIs(c: Core, s: Bytes, fl: seq<Kind>)
    requires c.frames != []
    ensures KeyPut(c, s, fl) == Put(RepairSpec.PrepareKey(c), s, fl)
    ensures RepairSpec.PrepareKey(c).pos == c.pos
  {
  }

  // --- Spaces and comments ---

  lemma {:induction false} LineEnds(inp: Bytes, p: nat, t: Bytes)
    requires Holds(inp, p, t + [0x0A]) && NoLineEnd(t)
    ensures p + |t| < |inp| && RepairSpec.LineEnd(inp, p) == p + |t| && inp[p + |t|] == 0x0A
    decreases |t|
  {
    HoldsFits(inp, p, t + [0x0A]);
    if t == [] {
      HoldsAt(inp, p, t + [0x0A], 0);
    } else {
      HoldsAt(inp, p, t + [0x0A], 0);
      assert t + [0x0A] == [t[0]] + (t[1..] + [0x0A]);
      HoldsParts(inp, p, [t[0]], t[1..] + [0x0A]);
      LineEnds(inp, p + 1, t[1..]);
    }
  }

  lemma {:induction false} BlockEnds(inp: Bytes, p: nat, t: Bytes)
    requires Holds(inp, p, t + [0x2A, 0x2F]) && NoBlockEnd(t)
    ensures RepairSpec.BlockEnd(inp, p) == p + |t| + 2
    decreases |t|
  {
    var s := t + [0x2A, 0x2F];
    HoldsFits(inp, p, s);
    HoldsAt(inp, p, s, 0);
    HoldsAt(inp, p, s, 1);
    if t != [] {
      assert s == [t[0]] + (t[1..] + [0x2A, 0x2F]);
      HoldsParts(inp, p, [t[0]], t[1..] + [0x2A, 0x2F]);
      BlockRest(t);
      BlockEnds(inp, p + 1, t[1..]);
    }
  }

  lemma BlockRest(t: Bytes)
    requires t != [] && NoBlockEnd(t)
    ensures NoBlockEnd(t[1..]) && !((t + [0x2A, 0x2F])[0] == 0x2A && (t + [0x2A, 0x2F])[1] == 0x2F)
  {
    var s := t + [0x2A, 0x2F];
    assert s[1..] == t[1..] + [0x2A, 0x2F];
    forall i | 0 <= i < |t| - 1 ensures !((t[1..] + [0x2A, 0x2F])[i] == 0x2A && (t[1..] + [0x2A, 0x2F])[i + 1] == 0x2F) {
      assert s[i + 1] == s[1..][i] && s[i + 2] == s[1..][i + 1];
      assert i + 1 < |t|;
    }
  }

  /** One more byte of space. */
  lemma SpaceRuns(inp: Bytes, c: Core, max: nat)
    requires c.pos < |inp| && !c.stop && IsSpace(inp[c.pos])
    ensures RepairSpec.Run(inp, c, max) == RepairSpec.Run(inp, c.(pos := c.pos + 1), max)
  {
    RepairAccepts.OneStep(inp, c, max);
    hide RepairSpec.Run, RepairSpec.TokenStep, RepairSpec.CommentStep;
  }

  /** The top-level value is not complete, so a code fence does not end the run. */
  predicate Running(c: Core) { !c.stop && !(c.topDone && c.frames == []) }

  lemma NoteRuns(inp: Bytes, c: Core, max: nat)
    requires c.pos < |inp| && !c.stop && RepairSpec.AtComment(inp, c.pos) && !IsSpace(inp[c.pos])
    requires RepairSpec.AtFence(inp, c.pos) ==> Running(c)
    ensures RepairSpec.Run(inp, c, max) == RepairSpec.Run(inp, RepairSpec.CommentStep(inp, c), max)
  {
    RunGoesOn(inp, c, max);
    hide RepairSpec.Run, RepairSpec.TokenStep, RepairSpec.CommentStep, RepairSpec.AtFence, RepairSpec.AtComment;
  }

  lemma RunGoesOn(inp: Bytes, c: Core, max: nat)
    requires c.pos < |inp| && !c.stop && (RepairSpec.AtFence(inp, c.pos) ==> Running(c))
    ensures RepairSpec.Run(inp, c, max) == RepairSpec.Run(inp, RepairSpec.Step(inp, c, max), max)
  {
    hide RepairSpec.Step, RepairSpec.AtFence;
  }

  /** A comment or fence up to its end. */
  lemma FillerRuns(f: Filler, inp: Bytes, c: Core, max: nat)
    requires GoodFiller(f) && Holds(inp, c.pos, FillerText(f)) && !c.stop && (f.Fence? ==> Running(c))
    ensures c.pos + |FillerText(f)| <= |inp|
    ensures RepairSpec.Run(inp, c, max)
         == RepairSpec.Run(inp, Put(c, [], FillerFlaws(f)).(pos := c.pos + |FillerText(f)|), max)
  {
    hide *;
    HoldsFits(inp, c.pos, FillerText(f));
    FillerIs(f);
    match f {
      case Space(b) =>
        HoldsAt(inp, c.pos, [b], 0);
        SpaceRuns(inp, c, max);
        PutNothing(c);
      case Line(slashes, t) => LineRuns(slashes, t, inp, c, max);
      case Block(t) => BlockRuns(t, inp, c, max);
      case Fence(t) => FenceRuns(t, inp, c, max);
    }
  }

  lemma FillerIs(f: Filler)
    requires GoodFiller(f)
    ensures f.Space? ==> IsSpace(f.b)
    ensures f.Line? ==> NoLineEnd(f.text)
    ensures f.Block? ==> NoBlockEnd(f.text)
    ensures f.Fence? ==> NoLineEnd(f.text)
    ensures FillerText(f) == match f
                             case Space(b) => [b]
                             case Line(slashes, t) => Slashes(slashes) + t + [0x0A]
                             case Block(t) => [0x2F, 0x2A] + t + [0x2A, 0x2F]
                             case Fence(t) => [0x60, 0x60, 0x60] + t + [0x0A]
    ensures FillerFlaws(f) == if f.Space? then [] else if f.Fence? then [RepairSpec.CodeFence] else [RepairSpec.Comment]
  {
    hide NoLineEnd, NoBlockEnd;
  }

  function Slashes(slashes: bool): Bytes { if slashes then [0x2F, 0x2F] else [0x23] }

  lemma CommentIs(inp: Bytes, c: Core)
    requires c.pos < |inp| && !RepairSpec.AtFence(inp, c.pos)
    ensures inp[c.pos] == 0x23 || (inp[c.pos] == 0x2F && c.pos + 1 < |inp| && inp[c.pos + 1] == 0x2F) ==>
              && RepairSpec.AtComment(inp, c.pos)
              && RepairSpec.CommentStep(inp, c)
                 == Put(c, [], [RepairSpec.Comment]).(pos := RepairSpec.LineEnd(inp, c.pos))
    ensures inp[c.pos] == 0x2F && c.pos + 1 < |inp| && inp[c.pos + 1] == 0x2A ==>
              && RepairSpec.AtComment(inp, c.pos)
              && RepairSpec.CommentStep(inp, c)
                 == Put(c, [], [RepairSpec.Comment]).(pos := RepairSpec.BlockEnd(inp, c.pos + 2))
  {
    PutFix(c, RepairSpec.Comment);
    hide Put, RepairSpec.LineEnd, RepairSpec.BlockEnd, RepairSpec.AtFence;
  }

  lemma NotFence(inp: Bytes, p: nat)
    requires p < |inp| && inp[p] != 0x60
    ensures !RepairSpec.AtFence(inp, p) && (inp[p] == 0x23 || inp[p] == 0x2F ==> !IsSpace(inp[p]))
  {
    RepairAccepts.NoFence(inp, p);
    hide RepairSpec.AtFence;
  }

  lemma SlashesAre(slashes: bool, t: Bytes)
    requires NoLineEnd(t)
    ensures NoLineEnd(Slashes(slashes) + t) && |Slashes(slashes) + t| > 0
    ensures (Slashes(slashes) + t)[0] == (if slashes then 0x2F else 0x23)
    ensures slashes ==> |Slashes(slashes) + t| > 1 && (Slashes(slashes) + t)[1] == 0x2F
  {
  }

  lemma LineRuns(slashes: bool, t: Bytes, inp: Bytes, c: Core, max: nat)
    requires NoLineEnd(t) && Holds(inp, c.pos, Slashes(slashes) + t + [0x0A]) && !c.stop
    ensures RepairSpec.Run(inp, c, max)
         == RepairSpec.Run(inp, Put(c, [], [RepairSpec.Comment]).(pos := c.pos + |Slashes(slashes) + t + [0x0A]|), max)
  {
    hide *;
    var s := Slashes(slashes) + t;
    SlashesAre(slashes, t);
    HoldsParts(inp, c.pos, s, [0x0A]);
    HoldsFits(inp, c.pos, s);
    HoldsAt(inp, c.pos, s, 0);
    if slashes { HoldsAt(inp, c.pos, s, 1); }
    NotFence(inp, c.pos);
    CommentIs(inp, c);
    NoteRuns(inp, c, max);
    LineEnds(inp, c.pos, s);
    var d := Put(c, [], [RepairSpec.Comment]).(pos := c.pos + |s|);
    PutKeeps(c, [], [RepairSpec.Comment]);
    LineEndIsSpace();
    SpaceRuns(inp, d, max);
  }

  lemma PutKeeps(c: Core, s: Bytes, fl: seq<Kind>)
    ensures var r := Put(c, s, fl);
            r.frames == c.frames && r.topDone == c.topDone && r.stop == c.stop && r.pos == c.pos && Running(r) == Running(c)
  {
  }

  lemma LineEndIsSpace()
    ensures IsSpace(0x0A) && !IsSpace(0x60)
  {
  }

  lemma BlockRuns(t: Bytes, inp: Bytes, c: Core, max: nat)
    requires NoBlockEnd(t) && Holds(inp, c.pos, [0x2F, 0x2A] + t + [0x2A, 0x2F]) && !c.stop
    ensures RepairSpec.Run(inp, c, max)
         == RepairSpec.Run(inp, Put(c, [], [RepairSpec.Comment]).(pos := c.pos + |[0x2F, 0x2A] + t + [0x2A, 0x2F]|), max)
  {
    hide *;
    Associates([0x2F, 0x2A], t, [0x2A, 0x2F]);
    HoldsParts(inp, c.pos, [0x2F, 0x2A], t + [0x2A, 0x2F]);
    HoldsFits(inp, c.pos, [0x2F, 0x2A]);
    HoldsAt(inp, c.pos, [0x2F, 0x2A], 0);
    HoldsAt(inp, c.pos, [0x2F, 0x2A], 1);
    NotFence(inp, c.pos);
    CommentIs(inp, c);
    NoteRuns(inp, c, max);
    BlockEnds(inp, c.pos + 2, t);
  }

  lemma FenceIs(inp: Bytes, c: Core)
    requires Holds(inp, c.pos, [0x60, 0x60, 0x60])
    ensures c.pos < |inp| && inp[c.pos] == 0x60 && RepairSpec.AtFence(inp, c.pos) && RepairSpec.AtComment(inp, c.pos)
    ensures RepairSpec.CommentStep(inp, c) == Put(c, [], [RepairSpec.CodeFence]).(pos := RepairSpec.LineEnd(inp, c.pos))
  {
    HoldsAt(inp, c.pos, [0x60, 0x60, 0x60], 0);
    PutFix(c, RepairSpec.CodeFence);
    hide Put, RepairSpec.LineEnd;
  }

  lemma FenceText(t: Bytes)
    requires NoLineEnd(t)
    ensures NoLineEnd([0x60, 0x60, 0x60] + t)
  {
  }

  lemma FenceRuns(t: Bytes, inp: Bytes, c: Core, max: nat)
    requires NoLineEnd(t) && Holds(inp, c.pos, [0x60, 0x60, 0x60] + t + [0x0A]) && Running(c) && !c.stop
    ensures RepairSpec.Run(inp, c, max)
         == RepairSpec.Run(inp, Put(c, [], [RepairSpec.CodeFence]).(pos := c.pos + |[0x60, 0x60, 0x60] + t + [0x0A]|), max)
  {
    hide *;
    HoldsThree(inp, c.pos, [0x60, 0x60, 0x60], t, [0x0A]);
    FenceIs(inp, c);
    LineEndIsSpace();
    NoteRuns(inp, c, max);
    FenceText(t);
    LineEnds(inp, c.pos, [0x60, 0x60, 0x60] + t);
    var d := Put(c, [], [RepairSpec.CodeFence]).(pos := c.pos + |[0x60, 0x60, 0x60] + t|);
    PutKeeps(c, [], [RepairSpec.CodeFence]);
    SpaceRuns(inp, d, max);
  }

  /** Spaces, comments and fences are skipped, and all but the spaces noted. */
  lemma {:induction false} FillRuns(s: Fill, inp: Bytes, c: Core, max: nat)
    requires GoodFill(s) && Holds(inp, c.pos, FillText(s)) && !c.stop && (Running(c) || GoodGap(s))
    ensures c.pos + |FillText(s)| <= |inp|
    ensures RepairSpec.Run(inp, c, max)
         == RepairSpec.Run(inp, Put(c, [], FillFlaws(s)).(pos := c.pos + |FillText(s)|), max)
    decreases |s|
  {
    hide *;
    HoldsFits(inp, c.pos, FillText(s));
    FillUnfold(s);
    if s == [] {
      PutNothing(c);
    } else {
      var a, b := FillerText(s[0]), FillText(s[1..]);
      HoldsParts(inp, c.pos, a, b);
      FillerRuns(s[0], inp, c, max);
      var d := Put(c, [], FillerFlaws(s[0])).(pos := c.pos + |a|);
      PutKeeps(c, [], FillerFlaws(s[0]));
      StillRunning(c, d);
      FillRuns(s[1..], inp, d, max);
      PutOn(c, [], FillerFlaws(s[0]), c.pos + |a|, [], FillFlaws(s[1..]));
      NothingMore([]);
    }
  }

  lemma StillRunning(c: Core, d: Core)
    requires d.frames == c.frames && d.topDone == c.topDone && d.stop == c.stop
    ensures Running(c) == Running(d)
  {
  }

  lemma FillUnfold(s: Fill)
    requires GoodFill(s)
    ensures s == [] ==> FillText(s) == [] && FillFlaws(s) == []
    ensures s != [] ==>
              && GoodFiller(s[0]) && GoodFill(s[1..]) && FillText(s) == FillerText(s[0]) + FillText(s[1..])
              && FillFlaws(s) == FillerFlaws(s[0]) + FillFlaws(s[1..])
    ensures GoodGap(s) && s != [] ==> !s[0].Fence? && GoodGap(s[1..])
  {
    hide GoodFiller, FillerText, FillerFlaws;
  }
}
