/** How serialized text is laid out, line by line and outside of strings. */
module Layout {
  import opened Bytes
  import opened Options
  import opened JsonValue

  /** What was read last: outside of strings an opening bracket, a comma, a colon, the spaces of a new line, or anything
      else of a value; Start expects the first byte of a value. */
  datatype Mode = Start | Opened | AfterComma | AfterColon | Margin(spaces: nat, closing: bool) | Inside | InString | Escape

  /** The number of brackets that are open, and what was read last. */
  datatype Look = Look(depth: nat, mode: Mode)

  predicate Closing(b: byte) { b == 0x5D || b == 0x7D }

  predicate Blank(b: byte) { b == 0x20 || b == 0x09 || b == 0x0A || b == 0x0D }

  /** A byte of a token outside of strings. */
  function Token(depth: nat, b: byte): Option<Look>
  {
    if Blank(b) then None
    else if b == 0x22 then Some(Look(depth, InString))
    else if b == 0x5B || b == 0x7B then Some(Look(depth + 1, Opened))
    else if Closing(b) then (if depth == 0 then None else Some(Look(depth - 1, Inside)))
    else if b == 0x2C then Some(Look(depth, AfterComma))
    else if b == 0x3A then Some(Look(depth, AfterColon))
    else Some(Look(depth, Inside))
  }

  /** One more byte. With an indent n, a new line begins exactly after an opening bracket (unless it is closed at once),
      after a comma, and before the bracket that closes a container with contents; it begins with n spaces for each
      bracket that is open after it; one space follows each colon, and no other blank stands outside of strings.
      Without an indent no blank does. */
  function Move(n: nat, s: Look, b: byte): Option<Look>
  {
    match s.mode
    case InString =>
      if b < 0x20 then None
      else Some(Look(s.depth, if b == 0x22 then Inside else if b == 0x5C then Escape else InString))
    case Escape => if b < 0x20 then None else Some(Look(s.depth, InString))
    case Start => if Closing(b) then None else Token(s.depth, b)
    case Opened =>
      if n > 0 && b == 0x0A then Some(Look(s.depth, Margin(0, false)))
      else if n > 0 && !Closing(b) then None
      else Token(s.depth, b)
    case AfterComma =>
      if n > 0 then (if b == 0x0A then Some(Look(s.depth, Margin(0, false))) else None)
      else if Closing(b) then None
      else Token(s.depth, b)
    case AfterColon =>
      if n > 0 then (if b == 0x20 then Some(Look(s.depth, Start)) else None)
      else if Closing(b) then None
      else Token(s.depth, b)
    case Margin(k, closing) =>
      if b == 0x20 then Some(Look(s.depth, Margin(k + 1, closing)))
      else if Closing(b) == closing && k == n * (if closing then s.depth - 1 else s.depth) then Token(s.depth, b)
      else None
    case Inside =>
      if n > 0 && b == 0x0A then Some(Look(s.depth, Margin(0, true)))
      else if n > 0 && Closing(b) then None
      else Token(s.depth, b)
  }

  function Fold(n: nat, s: Option<Look>, t: Bytes): Option<Look>
    decreases |t|
  {
    if s.None? || t == [] then s else Fold(n, Move(n, s.value, t[0]), t[1..])
  }

  /** The text is one value, laid out with this indent. */
  predicate WellLaid(n: nat, t: Bytes) { Fold(n, Some(Look(0, Start)), t) == Some(Look(0, Inside)) }

  predicate IsAscii(t: Bytes) { forall i :: 0 <= i < |t| ==> t[i] < 0x80 }
}

/** The serializer's text is laid out with its indent, and in ASCII if it is to escape everything else. */
module LayoutLaws {
  import opened Bytes
  import opened Texts
  import opened Options
  import opened JsonValue
  import opened Scan
  import opened Decimal
  import opened Utf8
  import opened SerializerSpec
  import opened SerializerRoundTrip
  import opened Layout
  import Grammar
  import RepairedNumbers

  lemma {:induction false} FoldJoin(n: nat, s: Option<Look>, a: Bytes, b: Bytes)
    ensures Fold(n, s, a + b) == Fold(n, Fold(n, s, a), b)
    decreases |a|
  {
    hide Move;
    if a == [] || s.None? {
      NothingBefore(b);
    } else {
      assert (a + b)[0] == a[0] && (a + b)[1..] == a[1..] + b;
      FoldJoin(n, Move(n, s.value, a[0]), a[1..], b);
    }
  }

  lemma FoldOne(n: nat, s: Look, b: byte)
    ensures Fold(n, Some(s), [b]) == Move(n, s, b)
  {
    hide Move;
    assert [b][1..] == [];
  }

  lemma FoldNone(n: nat, s: Look)
    ensures Fold(n, Some(s), []) == Some(s)
  {
  }

  /** A byte of a word or a number. */
  predicate Wordly(b: byte)
  {
    !Blank(b) && b != 0x22 && b != 0x5B && b != 0x7B && !Closing(b) && b != 0x2C && b != 0x3A
  }

  predicate WordlyText(t: Bytes) { t != [] && forall i :: 0 <= i < |t| ==> Wordly(t[i]) }

  /** Here a value may begin. */
  predicate Ready(n: nat, s: Look)
  {
    match s.mode
    case Start => true
    case Margin(k, closing) => !closing && k == n * s.depth
    case Opened => n == 0
    case AfterComma => n == 0
    case AfterColon => n == 0
    case _ => false
  }

  lemma Enters(n: nat, s: Look, b: byte)
    requires Ready(n, s) && !Blank(b) && !Closing(b)
    ensures Move(n, s, b) == Token(s.depth, b)
  {
    hide Token;
  }

  lemma {:induction false} InsideStays(n: nat, depth: nat, t: Bytes)
    requires forall i :: 0 <= i < |t| ==> Wordly(t[i])
    ensures Fold(n, Some(Look(depth, Inside)), t) == Some(Look(depth, Inside))
    decreases |t|
  {
    if t != [] {
      assert Wordly(t[0]);
      InsideStays(n, depth, t[1..]);
    }
  }

  lemma WordFolds(n: nat, s: Look, t: Bytes)
    requires Ready(n, s) && WordlyText(t)
    ensures Fold(n, Some(s), t) == Some(Look(s.depth, Inside))
  {
    assert Wordly(t[0]);
    Enters(n, s, t[0]);
    InsideStays(n, s.depth, t[1..]);
    hide Move;
  }

  // --- Strings ---

  /** Characters that stay inside a string. */
  ghost predicate StaysIn(n: nat, t: Bytes)
  {
    forall d: nat :: Fold(n, Some(Look(d, InString)), t) == Some(Look(d, InString))
  }

  lemma StaysJoin(n: nat, a: Bytes, b: Bytes)
    requires StaysIn(n, a) && StaysIn(n, b)
    ensures StaysIn(n, a + b)
  {
    hide Fold;
    forall d: nat ensures Fold(n, Some(Look(d, InString)), a + b) == Some(Look(d, InString)) {
      FoldJoin(n, Some(Look(d, InString)), a, b);
    }
  }

  lemma PlainStays(n: nat, b: byte)
    requires b >= 0x20 && b != 0x22 && b != 0x5C
    ensures StaysIn(n, [b])
  {
    forall d: nat ensures Fold(n, Some(Look(d, InString)), [b]) == Some(Look(d, InString)) {
      FoldOne(n, Look(d, InString), b);
    }
  }

  lemma PairStays(n: nat, b: byte)
    requires b >= 0x20
    ensures StaysIn(n, [0x5C, b])
  {
    assert [0x5C, b] == [0x5C] + [b];
    forall d: nat ensures Fold(n, Some(Look(d, InString)), [0x5C, b]) == Some(Look(d, InString)) {
      FoldJoin(n, Some(Look(d, InString)), [0x5C], [b]);
      FoldOne(n, Look(d, InString), 0x5C);
      FoldOne(n, Look(d, Escape), b);
    }
  }

  lemma HexPlain(d: nat)
    requires d < 16
    ensures HexChar(d) >= 0x30 && HexChar(d) != 0x5C && HexChar(d) < 0x80
  {
  }

  lemma UnitStays(n: nat, u: nat)
    requires u < 0x10000
    ensures StaysIn(n, UnitEscape(u)) && IsAscii(UnitEscape(u))
  {
    var a, b, c, d := HexChar(u / 4096), HexChar(u / 256 % 16), HexChar(u / 16 % 16), HexChar(u % 16);
    HexPlain(u / 4096);
    HexPlain(u / 256 % 16);
    HexPlain(u / 16 % 16);
    HexPlain(u % 16);
    PairStays(n, 0x75);
    PlainStays(n, a);
    PlainStays(n, b);
    PlainStays(n, c);
    PlainStays(n, d);
    hide StaysIn, HexChar;
    StaysJoin(n, [0x5C, 0x75], [a]);
    StaysJoin(n, [0x5C, 0x75] + [a], [b]);
    StaysJoin(n, [0x5C, 0x75] + [a] + [b], [c]);
    StaysJoin(n, [0x5C, 0x75] + [a] + [b] + [c], [d]);
    assert UnitEscape(u) == [0x5C, 0x75] + [a] + [b] + [c] + [d];
  }

  lemma ShortStays(n: nat, c: byte)
    requires c < 0x80
    ensures StaysIn(n, ShortEscape(c)) && IsAscii(ShortEscape(c))
  {
    hide UnitEscape, StaysIn;
    UnitStays(n, c);
    forall b: byte | b >= 0x20 ensures StaysIn(n, [0x5C, b]) { PairStays(n, b); }
  }

  lemma PointStays(n: nat, cp: nat)
    requires cp < 0x110000
    ensures StaysIn(n, CodePointEscape(cp)) && IsAscii(CodePointEscape(cp))
  {
    hide UnitEscape, StaysIn;
    if cp >= 0x10000 {
      UnitStays(n, 0xD800 + (cp - 0x10000) / 1024);
      UnitStays(n, 0xDC00 + (cp - 0x10000) % 1024);
      StaysJoin(n, UnitEscape(0xD800 + (cp - 0x10000) / 1024), UnitEscape(0xDC00 + (cp - 0x10000) % 1024));
    } else {
      UnitStays(n, cp);
    }
  }

  lemma AsciiJoin(a: Bytes, b: Bytes)
    requires IsAscii(a) && IsAscii(b)
    ensures IsAscii(a + b)
  {
  }

  lemma NothingStays(n: nat)
    ensures StaysIn(n, []) && IsAscii([])
  {
  }

  /** What a string is written as stays inside its quotes, and in ASCII if everything else is escaped. */
  lemma {:induction false} BodyStays(n: nat, s: Bytes, i: nat, escape: bool)
    requires i <= |s|
    ensures StaysIn(n, StringBody(s, i, escape)) && (escape ==> IsAscii(StringBody(s, i, escape)))
    decreases |s| - i
  {
    hide StaysIn, ShortEscape, CodePointEscape, UnitEscape, Utf8Decode;
    if i == |s| || s[i] == 0 {
      NothingStays(n);
    } else if PlainByte(s[i], escape) {
      BodyStays(n, s, i + 1, escape);
      PlainStays(n, s[i]);
      StaysJoin(n, [s[i]], StringBody(s, i + 1, escape));
    } else if s[i] < 0x80 {
      BodyStays(n, s, i + 1, escape);
      ShortStays(n, s[i]);
      StaysJoin(n, ShortEscape(s[i]), StringBody(s, i + 1, escape));
    } else {
      var d := Utf8Decode(s, i);
      if d.len == 0 {
        BodyStays(n, s, i + 1, escape);
        UnitStays(n, 0xFFFD);
        StaysJoin(n, UnitEscape(0xFFFD), StringBody(s, i + 1, escape));
      } else {
        BodyStays(n, s, i + d.len, escape);
        PointStays(n, d.cp);
        StaysJoin(n, CodePointEscape(d.cp), StringBody(s, i + d.len, escape));
      }
    }
  }

  lemma StringFolds(n: nat, s: Look, str: Bytes, escape: bool)
    requires Ready(n, s)
    ensures Fold(n, Some(s), PrintString(str, escape)) == Some(Look(s.depth, Inside))
    ensures escape ==> IsAscii(PrintString(str, escape))
  {
    var body := StringBody(str, 0, escape);
    BodyStays(n, str, 0, escape);
    Enters(n, s, 0x22);
    FoldOne(n, s, 0x22);
    FoldJoin(n, Some(s), [0x22] + body, [0x22]);
    FoldJoin(n, Some(s), [0x22], body);
    FoldOne(n, Look(s.depth, InString), 0x22);
    hide StringBody, Fold;
  }

  // --- Scalars ---

  lemma DigitsWordly(k: nat)
    ensures WordlyText(DecimalText(k)) && IsAscii(DecimalText(k))
  {
    hide DecimalText;
  }

  lemma IntWordly(i: int)
    ensures WordlyText(PrintInt(i)) && IsAscii(PrintInt(i))
  {
    if i < 0 { DigitsWordly(-i); } else { DigitsWordly(i); }
    hide DecimalText;
  }

  lemma NumberWordly(n: Number)
    requires SerializerRoundTrip.GoodNumber(n)
    ensures WordlyText(PrintNumber(n)) && IsAscii(PrintNumber(n))
  {
    match n
    case Int(i) => IntWordly(i); hide PrintInt;
    case Float(t) => FloatWordly(t);
  }

  lemma FloatWordly(t: Bytes)
    requires IsNumberText(t)
    ensures WordlyText(t) && IsAscii(t)
  {
    hide IsNumberText, Grammar.GoodNumber, Grammar.NumberText;
    RepairedNumbers.ExactIsNumber(t);
    var m :| Grammar.GoodNumber(m) && Grammar.NumberText(m) == t;
    RepairedNumbers.NumberHasBytes(m);
    RepairedNumbers.NumberFront(m);
  }

  // --- New lines ---

  lemma {:induction false} SpacesFold(n: nat, depth: nat, k: nat, closing: bool, more: nat)
    ensures Fold(n, Some(Look(depth, Margin(k, closing))), Spaces(more)) == Some(Look(depth, Margin(k + more, closing)))
    decreases more
  {
    if more > 0 {
      assert Spaces(more)[1..] == Spaces(more - 1);
      SpacesFold(n, depth, k + 1, closing, more - 1);
    }
  }

  /** A new line after an opening bracket or a comma. */
  lemma LineFolds(o: PrintOptions, s: Look)
    requires s.mode == Opened || s.mode == AfterComma
    ensures Fold(o.indent, Some(s), NewLine(o, s.depth)).Some?
    ensures var r := Fold(o.indent, Some(s), NewLine(o, s.depth)).value; Ready(o.indent, r) && r.depth == s.depth
  {
    var n, w := o.indent, s.depth * o.indent;
    if n > 0 {
      FoldJoin(n, Some(s), [0x0A], Spaces(w));
      FoldOne(n, s, 0x0A);
      SpacesFold(n, s.depth, 0, false, w);
      hide Fold, Spaces;
    }
  }

  /** A new line and the closing bracket. */
  lemma CloseFolds(o: PrintOptions, depth: nat, b: byte)
    requires Closing(b)
    ensures Fold(o.indent, Some(Look(depth + 1, Inside)), NewLine(o, depth) + [b]) == Some(Look(depth, Inside))
  {
    var n, w := o.indent, depth * o.indent;
    var s := Look(depth + 1, Inside);
    FoldJoin(n, Some(s), NewLine(o, depth), [b]);
    if n > 0 {
      FoldJoin(n, Some(s), [0x0A], Spaces(w));
      FoldOne(n, s, 0x0A);
      SpacesFold(n, depth + 1, 0, true, w);
      FoldOne(n, Look(depth + 1, Margin(w, true)), b);
      Commutes(depth, n);
    } else {
      FoldNone(n, s);
      FoldOne(n, s, b);
    }
    hide Fold, Spaces;
  }

  lemma Commutes(a: nat, b: nat)
    ensures a * b == b * a
  {
  }

  lemma LineAscii(o: PrintOptions, depth: nat)
    ensures IsAscii(NewLine(o, depth)) && IsAscii(KeySeparator(o))
  {
  }

  lemma SeparatorFolds(o: PrintOptions, depth: nat)
    ensures Fold(o.indent, Some(Look(depth, Inside)), KeySeparator(o)).Some?
    ensures var r := Fold(o.indent, Some(Look(depth, Inside)), KeySeparator(o)).value; Ready(o.indent, r) && r.depth == depth
  {
    var n := o.indent;
    FoldOne(n, Look(depth, Inside), 0x3A);
    if n > 0 {
      assert KeySeparator(o) == [0x3A] + [0x20];
      FoldJoin(n, Some(Look(depth, Inside)), [0x3A], [0x20]);
      FoldOne(n, Look(depth, AfterColon), 0x20);
    }
    hide Fold;
  }

  // --- Values ---

  /** From where a value may begin, its text leads to where a value ends, at the same depth. */
  ghost predicate Folds(v: Json, o: PrintOptions, depth: nat)
  {
    && (forall s: Look :: Ready(o.indent, s) && s.depth == depth ==>
          Fold(o.indent, Some(s), Print(v, o, depth)) == Some(Look(depth, Inside)))
    && (o.escapeUnicode ==> IsAscii(Print(v, o, depth)))
  }

  lemma FoldsIs(v: Json, o: PrintOptions, depth: nat, s: Look)
    requires Folds(v, o, depth) && Ready(o.indent, s) && s.depth == depth
    ensures Fold(o.indent, Some(s), Print(v, o, depth)) == Some(Look(depth, Inside))
    ensures o.escapeUnicode ==> IsAscii(Print(v, o, depth))
  {
    hide Print, Fold;
  }

  lemma ScalarFolds(v: Json, o: PrintOptions, depth: nat)
    requires Printable(v) && !v.Arr? && !v.Obj?
    ensures Folds(v, o, depth)
  {
    hide Fold, PrintString, PrintNumber, SerializerRoundTrip.GoodNumber, GoodString;
    if v.Num? { NumberWordly(v.n); }
    assert WordlyText(NULL_WORD) && WordlyText(TRUE_WORD) && WordlyText(FALSE_WORD);
    forall s: Look | Ready(o.indent, s) && s.depth == depth
      ensures Fold(o.indent, Some(s), Print(v, o, depth)) == Some(Look(depth, Inside))
    {
      if v.Str? { StringFolds(o.indent, s, v.s, o.escapeUnicode); } else { WordFolds(o.indent, s, Print(v, o, depth)); }
    }
    if v.Str? { StringFolds(o.indent, Look(depth, Start), v.s, o.escapeUnicode); }
  }

  lemma EmptyFolds(v: Json, o: PrintOptions, depth: nat)
    requires v == Arr([]) || v == Obj([])
    ensures Folds(v, o, depth)
  {
    var a, b := if v.Arr? then 0x5B else 0x7B, if v.Arr? then 0x5D else 0x7D;
    assert Print(v, o, depth) == [a] + [b];
    forall s: Look | Ready(o.indent, s) && s.depth == depth
      ensures Fold(o.indent, Some(s), Print(v, o, depth)) == Some(Look(depth, Inside))
    {
      FoldJoin(o.indent, Some(s), [a], [b]);
      Enters(o.indent, s, a);
      FoldOne(o.indent, s, a);
      FoldOne(o.indent, Look(depth + 1, Opened), b);
      hide Fold;
    }
  }

  /** A container around contents that lead from its opening bracket to the end of a value. */
  lemma AroundFolds(n: nat, s: Look, a: byte, body: Bytes, tail: Bytes)
    requires Ready(n, s) && (a == 0x5B || a == 0x7B)
    requires Fold(n, Some(Look(s.depth + 1, Opened)), body) == Some(Look(s.depth + 1, Inside))
    requires Fold(n, Some(Look(s.depth + 1, Inside)), tail) == Some(Look(s.depth, Inside))
    ensures Fold(n, Some(s), [a] + body + tail) == Some(Look(s.depth, Inside))
  {
    Enters(n, s, a);
    FoldOne(n, s, a);
    FoldJoin(n, Some(s), [a] + body, tail);
    FoldJoin(n, Some(s), [a], body);
    hide Fold, Move;
  }

  predicate AfterOpen(s: Look) { s.mode == Opened || s.mode == AfterComma }

  lemma ArrayPrints(items: seq<Json>, o: PrintOptions, depth: nat)
    requires items != []
    ensures Print(Arr(items), o, depth) == [0x5B] + PrintItems(items, o, depth + 1) + (NewLine(o, depth) + [0x5D])
  {
    hide PrintItems, NewLine;
  }

  lemma ObjectPrints(ms: seq<Member>, o: PrintOptions, depth: nat)
    requires ms != []
    ensures Print(Obj(ms), o, depth) == [0x7B] + PrintMembers(ms, o, depth + 1) + (NewLine(o, depth) + [0x7D])
  {
    hide PrintMembers, NewLine;
  }

  lemma ContainerAscii(a: byte, body: Bytes, o: PrintOptions, depth: nat, b: byte)
    requires a < 0x80 && b < 0x80 && IsAscii(body)
    ensures IsAscii([a] + body + (NewLine(o, depth) + [b]))
  {
    LineAscii(o, depth);
    hide NewLine;
  }

  lemma {:induction false} ValueFolds(v: Json, o: PrintOptions, depth: nat)
    requires Printable(v)
    ensures Folds(v, o, depth)
    decreases v, 1
  {
    hide Fold, Print, PrintItems, PrintMembers, NewLine, SerializerRoundTrip.GoodNumber, GoodString;
    if v == Arr([]) || v == Obj([]) {
      EmptyFolds(v, o, depth);
    } else if v.Arr? {
      ArrayPrints(v.items, o, depth);
      ItemsFold(v.items, o, Look(depth + 1, Opened));
      CloseFolds(o, depth, 0x5D);
      var body := PrintItems(v.items, o, depth + 1);
      forall s: Look | Ready(o.indent, s) && s.depth == depth
        ensures Fold(o.indent, Some(s), Print(v, o, depth)) == Some(Look(depth, Inside))
      {
        AroundFolds(o.indent, s, 0x5B, body, NewLine(o, depth) + [0x5D]);
      }
      if o.escapeUnicode { ContainerAscii(0x5B, body, o, depth, 0x5D); }
    } else if v.Obj? {
      ObjectPrints(v.members, o, depth);
      MembersFold(v.members, o, Look(depth + 1, Opened));
      CloseFolds(o, depth, 0x7D);
      var body := PrintMembers(v.members, o, depth + 1);
      forall s: Look | Ready(o.indent, s) && s.depth == depth
        ensures Fold(o.indent, Some(s), Print(v, o, depth)) == Some(Look(depth, Inside))
      {
        AroundFolds(o.indent, s, 0x7B, body, NewLine(o, depth) + [0x7D]);
      }
      if o.escapeUnicode { ContainerAscii(0x7B, body, o, depth, 0x7D); }
    } else {
      ScalarFolds(v, o, depth);
    }
  }

  lemma ItemsPrint(items: seq<Json>, o: PrintOptions, depth: nat)
    requires items != []
    ensures |items| == 1 ==> PrintItems(items, o, depth) == NewLine(o, depth) + Print(items[0], o, depth)
    ensures |items| > 1 ==>
              PrintItems(items, o, depth) == NewLine(o, depth) + Print(items[0], o, depth) + ([0x2C] + PrintItems(items[1..], o, depth))
  {
    hide Print, NewLine;
    NothingMore(NewLine(o, depth) + Print(items[0], o, depth));
  }

  lemma {:induction false} ItemsFold(items: seq<Json>, o: PrintOptions, s: Look)
    requires items != [] && AfterOpen(s) && forall i :: 0 <= i < |items| ==> Printable(items[i])
    ensures Fold(o.indent, Some(s), PrintItems(items, o, s.depth)) == Some(Look(s.depth, Inside))
    ensures o.escapeUnicode ==> IsAscii(PrintItems(items, o, s.depth))
    decreases items, 0
  {
    hide Fold, Print, PrintItems, NewLine, Printable, Folds;
    var n, d := o.indent, s.depth;
    var l, p := NewLine(o, d), Print(items[0], o, d);
    ItemsPrint(items, o, d);
    LineFolds(o, s);
    LineAscii(o, d);
    FoldJoin(n, Some(s), l, p);
    var r := Fold(n, Some(s), l).value;
    ValueFolds(items[0], o, d);
    FoldsIs(items[0], o, d, r);
    if |items| > 1 {
      var rest := PrintItems(items[1..], o, d);
      ItemsFold(items[1..], o, Look(d, AfterComma));
      MoreFolds(n, s, l + p, rest);
      if o.escapeUnicode { AsciiJoin(l, p); AsciiJoin([0x2C], rest); AsciiJoin(l + p, [0x2C] + rest); }
    } else if o.escapeUnicode {
      AsciiJoin(l, p);
    }
  }

  lemma MoreFolds(n: nat, s: Look, a: Bytes, rest: Bytes)
    requires Fold(n, Some(s), a) == Some(Look(s.depth, Inside))
    requires Fold(n, Some(Look(s.depth, AfterComma)), rest) == Some(Look(s.depth, Inside))
    ensures Fold(n, Some(s), a + ([0x2C] + rest)) == Some(Look(s.depth, Inside))
  {
    FoldJoin(n, Some(s), a, [0x2C] + rest);
    FoldJoin(n, Some(Look(s.depth, Inside)), [0x2C], rest);
    FoldOne(n, Look(s.depth, Inside), 0x2C);
    hide Fold;
  }

  lemma MembersPrint(ms: seq<Member>, o: PrintOptions, depth: nat)
    requires ms != []
    ensures |ms| == 1 ==> PrintMembers(ms, o, depth) == PrintMember(ms[0], o, depth)
    ensures |ms| > 1 ==>
              PrintMembers(ms, o, depth) == PrintMember(ms[0], o, depth) + ([0x2C] + PrintMembers(ms[1..], o, depth))
  {
    hide PrintMember;
    NothingMore(PrintMember(ms[0], o, depth));
  }

  lemma {:induction false} MemberFolds(m: Member, o: PrintOptions, s: Look)
    requires AfterOpen(s) && Printable(m.value)
    ensures Fold(o.indent, Some(s), PrintMember(m, o, s.depth)) == Some(Look(s.depth, Inside))
    ensures o.escapeUnicode ==> IsAscii(PrintMember(m, o, s.depth))
    decreases m, 2
  {
    hide Fold, Print, PrintString, KeySeparator, NewLine, Printable, Folds;
    var n, d := o.indent, s.depth;
    var l, k, c, p := NewLine(o, d), PrintString(m.key, o.escapeUnicode), KeySeparator(o), Print(m.value, o, d);
    LineFolds(o, s);
    LineAscii(o, d);
    var r := Fold(n, Some(s), l).value;
    StringFolds(n, r, m.key, o.escapeUnicode);
    SeparatorFolds(o, d);
    var q := Fold(n, Some(Look(d, Inside)), c).value;
    ValueFolds(m.value, o, d);
    FoldsIs(m.value, o, d, q);
    FoldJoin(n, Some(s), l + k, c + p);
    FoldJoin(n, Some(s), l, k);
    FoldJoin(n, Some(Look(d, Inside)), c, p);
    if o.escapeUnicode { AsciiJoin(l, k); AsciiJoin(c, p); AsciiJoin(l + k, c + p); }
  }

  lemma {:induction false} MembersFold(ms: seq<Member>, o: PrintOptions, s: Look)
    requires ms != [] && AfterOpen(s) && forall i :: 0 <= i < |ms| ==> Printable(ms[i].value)
    ensures Fold(o.indent, Some(s), PrintMembers(ms, o, s.depth)) == Some(Look(s.depth, Inside))
    ensures o.escapeUnicode ==> IsAscii(PrintMembers(ms, o, s.depth))
    decreases ms, 0
  {
    hide Fold, PrintMember, PrintMembers, Printable;
    MembersPrint(ms, o, s.depth);
    MemberFolds(ms[0], o, s);
    if |ms| > 1 {
      var rest := PrintMembers(ms[1..], o, s.depth);
      MembersFold(ms[1..], o, Look(s.depth, AfterComma));
      MoreFolds(o.indent, s, PrintMember(ms[0], o, s.depth), rest);
      if o.escapeUnicode { AsciiJoin([0x2C], rest); AsciiJoin(PrintMember(ms[0], o, s.depth), [0x2C] + rest); }
    }
  }

  /** Every line of the serialized text is indented by its depth, without an indent no blank stands outside of strings,
      and with everything else escaped the text is ASCII. */
  lemma SerializedLayout(v: Json, o: PrintOptions, max: nat)
    requires Printable(v) && Within(v, max)
    ensures WellLaid(o.indent, Serialize(v, o))
    ensures o.escapeUnicode ==> IsAscii(Serialize(v, o))
  {
    hide *;
    var w := Arranged(v, o.sortKeys);
    ArrangedIsPrintable(v, o.sortKeys, max);
    ValueFolds(w, o, 0);
    FirstLook(o.indent);
    FoldsIs(w, o, 0, Look(0, Start));
    SerializedIs(v, o);
  }

  lemma FirstLook(n: nat)
    ensures Ready(n, Look(0, Start))
  {
  }

  lemma SerializedIs(v: Json, o: PrintOptions)
    ensures Serialize(v, o) == Print(Arranged(v, o.sortKeys), o, 0)
    ensures WellLaid(o.indent, Serialize(v, o)) <==> Fold(o.indent, Some(Look(0, Start)), Serialize(v, o)) == Some(Look(0, Inside))
  {
    hide Print, Arranged, Fold;
  }
}
