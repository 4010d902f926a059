/** The token view: a flat index of a document, what it denotes, and its agreement with the parser. */
module ViewSpec {
  import opened Bytes
  import opened Options
  import opened JsonValue
  import opened Scan
  import opened Utf8
  import opened ScanLoops
  import opened ParserSpec

  datatype Kind = ObjectTok | ArrayTok | StringTok | NumberTok | TrueTok | FalseTok | NullTok

  /** `next` is the index of the first token after the subtree. */
  datatype Tok = Tok(kind: Kind, start: nat, end: nat, size: nat, next: nat, escaped: bool)

  const MAX_LENGTH: nat := 0xFFFFFFF0

  // --- Strings: escapes first, then the encoding of the whole range ---

  /** The closing quote of the string characters from i on, if every escape before it decodes. */
  function QuoteAt(inp: Bytes, i: nat): (r: Option<nat>)
    requires i <= |inp|
    ensures r.Some? ==> i <= r.value < |inp| && inp[r.value] == QUOTE
    decreases |inp| - i
  {
    var j := SpecialAt(inp, i);
    if j >= |inp| then None
    else if inp[j] == QUOTE then Some(j)
    else if inp[j] == BACKSLASH then
      var e := DecodeEscape(inp, j, |inp|);
      if e.BadEscape? then None else QuoteAt(inp, j + e.used)
    else None
  }

  predicate HasEscape(inp: Bytes, s: nat, e: nat)
    requires s <= e <= |inp|
  {
    exists k :: s <= k < e && inp[k] == BACKSLASH
  }

  /** The token of the string whose characters start at i. */
  function StringToken(inp: Bytes, i: nat, base: nat): (r: Parse<Tok>)
    requires i <= |inp|
    ensures r.Ok? ==> i < r.pos <= |inp|
  {
    var q := QuoteAt(inp, i);
    if q.None? || InvalidAt(inp, i, q.value) != q.value then Fail
    else Ok(Tok(StringTok, i, q.value, 0, base + 1, HasEscape(inp, i, q.value)), q.value + 1)
  }

  /** The text a string token stands for. */
  function DecodeSpan(inp: Bytes, s: nat, e: nat): Bytes
    requires s <= e <= |inp|
    decreases e - s
  {
    if s >= e then []
    else if inp[s] == BACKSLASH then
      var d := DecodeEscape(inp, s, e);
      if d.BadEscape? then [] else d.out + DecodeSpan(inp, s + d.used, e)
    else [inp[s]] + DecodeSpan(inp, s + 1, e)
  }

  // --- Tokens ---

  function Single(kind: Kind, s: nat, e: nat, base: nat): Tok { Tok(kind, s, e, 0, base + 1, false) }

  function WordTokens(inp: Bytes, i: nat, word: Bytes, kind: Kind, base: nat): (r: Parse<seq<Tok>>)
    requires i <= |inp| && word != []
    ensures r.Ok? ==> i < r.pos <= |inp| && |r.value| == 1
  {
    if |inp| - i < |word| || inp[i..i + |word|] != word then Fail
    else Ok([Single(kind, i, i + |word|, base)], i + |word|)
  }

  /** The tokens of the value at i, the first of which gets the index `base`. */
  function ValueTokens(inp: Bytes, i: nat, depth: nat, max: nat, base: nat): (r: Parse<seq<Tok>>)
    requires i <= |inp|
    ensures r.Ok? ==> i < r.pos <= |inp| && |r.value| >= 1
    decreases |inp| - i, 1
  {
    var j := SkipWs(inp, i);
    if j >= |inp| then Fail else
    var c := inp[j];
    if c == OPEN_BRACE then ContainerTokens(inp, j, true, depth, max, base)
    else if c == OPEN_BRACKET then ContainerTokens(inp, j, false, depth, max, base)
    else if c == QUOTE then
      var s := StringToken(inp, j + 1, base);
      if s.Fail? then Fail else Ok([s.value], s.pos)
    else if c == LOWER_T then WordTokens(inp, j, TRUE_WORD, TrueTok, base)
    else if c == LOWER_F then WordTokens(inp, j, FALSE_WORD, FalseTok, base)
    else if c == LOWER_N then WordTokens(inp, j, NULL_WORD, NullTok, base)
    else
      var e := ScanNumber(inp, j, |inp|);
      if e.None? then Fail else Ok([Single(NumberTok, j, e.value, base)], e.value)
  }

  datatype Elements = Elements(toks: seq<Tok>, size: nat)

  function ContainerTokens(inp: Bytes, i: nat, isObject: bool, depth: nat, max: nat, base: nat): (r: Parse<seq<Tok>>)
    requires i < |inp|
    ensures r.Ok? ==> i < r.pos <= |inp| && |r.value| >= 1
    decreases |inp| - i, 0
  {
    if depth + 1 > max then Fail else
    var j := SkipWs(inp, i + 1);
    var kind := if isObject then ObjectTok else ArrayTok;
    if j < |inp| && inp[j] == Closing(isObject) then Ok([Single(kind, i, j + 1, base)], j + 1)
    else
      var e := ElementTokens(inp, j, isObject, depth + 1, max, base + 1);
      if e.Fail? then Fail
      else Ok([Tok(kind, i, e.pos, e.value.size, base + 1 + |e.value.toks|, false)] + e.value.toks, e.pos)
  }

  function Closing(isObject: bool): byte { if isObject then CLOSE_BRACE else CLOSE_BRACKET }

  /** A key and its colon. */
  function KeyToken(inp: Bytes, i: nat, base: nat): (r: Parse<Tok>)
    requires i <= |inp|
    ensures r.Ok? ==> i < r.pos <= |inp|
  {
    var j := SkipWs(inp, i);
    if j >= |inp| || inp[j] != QUOTE then Fail else
    var key := StringToken(inp, j + 1, base);
    if key.Fail? then Fail else
    var k := SkipWs(inp, key.pos);
    if k >= |inp| || inp[k] != COLON then Fail else Ok(key.value, k + 1)
  }

  /** In an object, the key of the next member; in an array, nothing. */
  function KeyTokens(inp: Bytes, i: nat, isObject: bool, base: nat): (r: Parse<seq<Tok>>)
    requires i <= |inp|
    ensures r.Ok? ==> i <= r.pos <= |inp| && |r.value| == if isObject then 1 else 0
  {
    if !isObject then Ok([], i)
    else
      var k := KeyToken(inp, i, base);
      if k.Fail? then Fail else Ok([k.value], k.pos)
  }

  /** One or more items or members from i, past the closing bracket. */
  function ElementTokens(inp: Bytes, i: nat, isObject: bool, depth: nat, max: nat, base: nat): (r: Parse<Elements>)
    requires i <= |inp|
    ensures r.Ok? ==> i < r.pos <= |inp| && |r.value.toks| >= 1
    decreases |inp| - i, 2
  {
    var k := KeyTokens(inp, i, isObject, base);
    if k.Fail? then Fail else
    var v := ValueTokens(inp, k.pos, depth, max, base + |k.value|);
    if v.Fail? then Fail else
    var j := SkipWs(inp, v.pos);
    if j >= |inp| then Fail
    else if inp[j] == COMMA then
      var rest := ElementTokens(inp, j + 1, isObject, depth, max, base + |k.value| + |v.value|);
      if rest.Fail? then Fail
      else Ok(Elements(k.value + v.value + rest.value.toks, 1 + rest.value.size), rest.pos)
    else if inp[j] == Closing(isObject) then Ok(Elements(k.value + v.value, 1), j + 1)
    else Fail
  }

  /** The token array of a document. */
  function DocumentTokens(inp: Bytes, max: nat): Option<seq<Tok>>
  {
    var v := ValueTokens(inp, BomLength(inp), 0, max, 0);
    if v.Fail? || SkipWs(inp, v.pos) < |inp| then None else Some(v.value)
  }

  // --- What tokens denote ---

  predicate IsString(inp: Bytes, t: Tok, s: Bytes)
  {
    && t.kind == StringTok && t.start <= t.end <= |inp|
    && DecodeSpan(inp, t.start, t.end) == s
    && (!t.escaped ==> inp[t.start..t.end] == s)
  }

  /** The subtree at t is v: its children's subtrees follow it without gaps, up to its own next link. */
  predicate Denotes(inp: Bytes, T: seq<Tok>, t: nat, v: Json)
    decreases v, 1
  {
    && t < |T|
    && t < T[t].next <= |T|
    && match v
       case Null => T[t].kind == NullTok
       case Bool(b) => T[t].kind == if b then TrueTok else FalseTok
       case Num(n) =>
         T[t].kind == NumberTok && T[t].start <= T[t].end <= |inp| && NumberValue(inp[T[t].start..T[t].end]) == n
       case Str(s) => IsString(inp, T[t], s)
       case Arr(items) => T[t].kind == ArrayTok && T[t].size == |items| && ItemsAt(inp, T, t + 1, items, T[t].next)
       case Obj(ms) => T[t].kind == ObjectTok && T[t].size == |ms| && MembersAt(inp, T, t + 1, ms, T[t].next)
  }

  predicate ItemsAt(inp: Bytes, T: seq<Tok>, c: nat, items: seq<Json>, end: nat)
    decreases items, 0
  {
    if items == [] then c == end
    else c < |T| && T[c].next <= end && Denotes(inp, T, c, items[0]) && ItemsAt(inp, T, T[c].next, items[1..], end)
  }

  predicate MembersAt(inp: Bytes, T: seq<Tok>, c: nat, ms: seq<Member>, end: nat)
    decreases ms, 0
  {
    if ms == [] then c == end
    else
      && c + 1 < |T| && T[c + 1].next <= end
      && IsString(inp, T[c], ms[0].key)
      && Denotes(inp, T, c + 1, ms[0].value)
      && MembersAt(inp, T, T[c + 1].next, ms[1..], end)
  }
}

/** The view accepts what the parser accepts, and its tokens denote the parsed tree. */
module ViewAgreement {
  import opened Bytes
  import opened Texts
  import opened Options
  import opened JsonValue
  import opened Scan
  import opened Utf8
  import opened ScanLoops
  import opened ParserSpec
  import opened StringPhases
  import opened ListReading
  import opened ViewSpec

  // --- Strings ---

  lemma EscapeIsAscii(inp: Bytes, j: nat)
    requires j < |inp| && inp[j] == BACKSLASH && DecodeEscape(inp, j, |inp|).Escaped?
    ensures forall k :: j <= k < j + DecodeEscape(inp, j, |inp|).used ==> inp[k] < 0x80
  {
    hide Utf8Encode;
    if inp[j + 1] == LOWER_U {
      HexIsAscii(inp, j + 2);
      if DecodeEscape(inp, j, |inp|).used == 12 { HexIsAscii(inp, j + 8); }
    }
  }

  lemma HexIsAscii(inp: Bytes, i: nat)
    requires i + 4 <= |inp| && Hex4(inp, i) >= 0
    ensures forall k :: i <= k < i + 4 ==> inp[k] < 0x80
  {
  }

  /** An ASCII byte splits the check of a range in two. */
  lemma {:induction false} SplitAtAscii(inp: Bytes, i: nat, j: nat, r: nat)
    requires i <= j < r <= |inp| && inp[j] < 0x80
    ensures InvalidAt(inp, i, r) == if InvalidAt(inp, i, j) == j then InvalidAt(inp, j, r) else InvalidAt(inp, i, j)
    decreases j - i
  {
    if i < j {
      LengthUpToAscii(inp, i, j, r);
      hide Utf8Length;
      var len := Utf8Length(inp, i, j);
      if len > 0 { SplitAtAscii(inp, i + len, j, r); }
    }
  }

  lemma LengthUpToAscii(inp: Bytes, i: nat, j: nat, r: nat)
    requires i < j < r <= |inp| && inp[j] < 0x80
    ensures Utf8Length(inp, i, r) == Utf8Length(inp, i, j)
  {
  }

  /** Checking the whole range at once and checking it between the escapes accept the same strings. */
  lemma {:induction false} StringsAgree(inp: Bytes, i: nat, base: nat)
    requires i <= |inp|
    ensures StringToken(inp, i, base).Ok? == ReadString(inp, i).Ok?
    ensures StringToken(inp, i, base).Ok? ==> StringToken(inp, i, base).pos == ReadString(inp, i).pos
    decreases |inp| - i
  {
    hide ReadString, DecodeEscape, InvalidAt, SpecialAt, HasEscape;
    var j := SpecialAt(inp, i);
    SpecialFacts(inp, i);
    if j < |inp| {
      SegmentReads(inp, i, j);
      if inp[j] == QUOTE {
        ReadsQuote(inp, j, inp[i..j]);
      } else if inp[j] == BACKSLASH {
        var e := DecodeEscape(inp, j, |inp|);
        ReadsEscape(inp, j);
        if e.Escaped? {
          var k := j + e.used;
          StringsAgree(inp, k, base);
          EscapeIsAscii(inp, j);
          if QuoteAt(inp, k).Some? {
            var r := QuoteAt(inp, k).value;
            SplitAtAscii(inp, i, j, r);
            SkipAscii(inp, j, k - j, r);
          }
        }
      } else {
        ControlFails(inp, j);
      }
    } else {
      NeverCloses(inp, i);
    }
  }

  lemma SpecialFacts(inp: Bytes, i: nat)
    requires i <= |inp|
    ensures var j := SpecialAt(inp, i);
            i <= j <= |inp| && (forall k :: i <= k < j ==> !IsSpecial(inp[k])) && (j < |inp| ==> IsSpecial(inp[j]))
  {
  }

  lemma ControlFails(inp: Bytes, j: nat)
    requires j < |inp| && inp[j] < 0x20
    ensures ReadString(inp, j).Fail?
  {
  }

  lemma NeverCloses(inp: Bytes, i: nat)
    requires i <= |inp| && SpecialAt(inp, i) == |inp|
    ensures ReadString(inp, i).Fail?
  {
    NoClose(inp, i);
  }

  /** Decoding a token's range gives what the parser read. */
  lemma {:induction false} SpanDecodes(inp: Bytes, i: nat)
    requires i <= |inp| && ReadString(inp, i).Ok?
    ensures DecodeSpan(inp, i, ReadString(inp, i).pos - 1) == ReadString(inp, i).value
    decreases |inp| - i
  {
    hide ReadString, Utf8Length, DecodeEscape, DecodeSpan, FindClose;
    var r := ReadString(inp, i).pos - 1;
    NeedsByte(inp, i);
    if inp[i] == QUOTE {
      ReadsQuote(inp, i, []);
      EmptySpan(inp, i);
    } else if inp[i] == BACKSLASH {
      ReadsEscape(inp, i);
      var e := DecodeEscape(inp, i, |inp|);
      ReadHasClose(inp, i);
      EscapeWithin(inp, i, r);
      SpanDecodes(inp, i + e.used);
      EscapeSpan(inp, i, r);
    } else {
      ReadsChar(inp, i);
      var len := Utf8Length(inp, i, |inp|);
      SpanDecodes(inp, i + len);
      PlainSpan(inp, i, i + len, r);
    }
  }

  lemma NeedsByte(inp: Bytes, i: nat)
    requires i <= |inp| && ReadString(inp, i).Ok?
    ensures i < |inp| && (inp[i] != QUOTE && inp[i] != BACKSLASH ==> !IsSpecial(inp[i]))
    ensures inp[i] == QUOTE ==> ReadString(inp, i) == Ok([], i + 1)
  {
  }

  lemma EmptySpan(inp: Bytes, i: nat)
    requires i <= |inp|
    ensures DecodeSpan(inp, i, i) == []
  {
  }

  lemma EscapeSpan(inp: Bytes, i: nat, r: nat)
    requires i < r <= |inp| && inp[i] == BACKSLASH && DecodeEscape(inp, i, r).Escaped?
    ensures var e := DecodeEscape(inp, i, r); DecodeSpan(inp, i, r) == e.out + DecodeSpan(inp, i + e.used, r)
  {
    hide DecodeEscape;
  }

  lemma {:induction false} PlainSpan(inp: Bytes, i: nat, k: nat, r: nat)
    requires i <= k <= r <= |inp| && forall x :: i <= x < k ==> inp[x] != BACKSLASH
    ensures DecodeSpan(inp, i, r) == inp[i..k] + DecodeSpan(inp, k, r)
    decreases k - i
  {
    if i < k {
      PlainSpan(inp, i + 1, k, r);
      assert inp[i..k] == [inp[i]] + inp[i + 1..k];
      Associates([inp[i]], inp[i + 1..k], DecodeSpan(inp, k, r));
    } else {
      NothingBefore(DecodeSpan(inp, k, r));
      assert inp[i..k] == [];
    }
  }

  lemma StringDenotes(inp: Bytes, i: nat, base: nat)
    requires i <= |inp| && StringToken(inp, i, base).Ok?
    ensures ReadString(inp, i).Ok? && IsString(inp, StringToken(inp, i, base).value, ReadString(inp, i).value)
  {
    StringsAgree(inp, i, base);
    hide ReadString, QuoteAt, InvalidAt;
    SpanDecodes(inp, i);
    var q := QuoteAt(inp, i).value;
    if !HasEscape(inp, i, q) {
      PlainSpan(inp, i, q, q);
      NothingMore(inp[i..q]);
    }
  }

  // --- Acceptance ---

  lemma {:induction false} ValuesAgree(inp: Bytes, i: nat, depth: nat, max: nat, base: nat)
    requires i <= |inp|
    ensures ValueTokens(inp, i, depth, max, base).Ok? == ReadValue(inp, i, depth, max).Ok?
    ensures ReadValue(inp, i, depth, max).Ok? ==>
              ValueTokens(inp, i, depth, max, base).pos == ReadValue(inp, i, depth, max).pos
    decreases |inp| - i, 1
  {
    hide SkipWs, StringToken, ReadString, ReadArray, ReadObject, ContainerTokens, ScanNumber, NumberValue;
    var j := SkipWs(inp, i);
    if j < |inp| {
      if inp[j] == OPEN_BRACE || inp[j] == OPEN_BRACKET {
        ContainersAgree(inp, j, inp[j] == OPEN_BRACE, depth, max, base);
      } else if inp[j] == QUOTE {
        StringsAgree(inp, j + 1, base);
      } else if inp[j] != MINUS && !IsDigit(inp[j]) {
        NoNumber(inp, j);
      }
    }
  }

  lemma NoNumber(inp: Bytes, j: nat)
    requires j < |inp| && inp[j] != MINUS && !IsDigit(inp[j])
    ensures ScanNumber(inp, j, |inp|).None?
  {
  }

  lemma {:induction false} ContainersAgree(inp: Bytes, i: nat, isObject: bool, depth: nat, max: nat, base: nat)
    requires i < |inp|
    ensures var r := if isObject then ReadObject(inp, i, depth, max) else ReadArray(inp, i, depth, max);
            var t := ContainerTokens(inp, i, isObject, depth, max, base);
            t.Ok? == r.Ok? && (r.Ok? ==> t.pos == r.pos)
    decreases |inp| - i, 0
  {
    hide SkipWs, ReadItems, ReadMembers, ElementTokens;
    if depth + 1 <= max {
      var j := SkipWs(inp, i + 1);
      if !(j < |inp| && inp[j] == Closing(isObject)) {
        if isObject {
          MembersAgree(inp, j, depth + 1, max, base + 1);
        } else {
          ItemsAgree(inp, j, depth + 1, max, base + 1);
        }
      }
    }
  }

  lemma KeysAgree(inp: Bytes, i: nat, base: nat)
    requires i <= |inp|
    ensures KeyToken(inp, i, base).Ok? == ReadKey(inp, i).Ok?
    ensures ReadKey(inp, i).Ok? ==> KeyToken(inp, i, base).pos == ReadKey(inp, i).pos
    ensures ReadKey(inp, i).Ok? ==> IsString(inp, KeyToken(inp, i, base).value, ReadKey(inp, i).value)
    ensures ReadKey(inp, i).Ok? ==> KeyToken(inp, i, base).value.next == base + 1
  {
    hide SkipWs, ReadString, IsString;
    var j := SkipWs(inp, i);
    if j < |inp| && inp[j] == QUOTE {
      StringsAgree(inp, j + 1, base);
      if StringToken(inp, j + 1, base).Ok? { StringDenotes(inp, j + 1, base); }
    }
  }

  lemma {:induction false} ItemsAgree(inp: Bytes, i: nat, depth: nat, max: nat, base: nat)
    requires i <= |inp|
    ensures var e, r := ElementTokens(inp, i, false, depth, max, base), ReadItems(inp, i, depth, max);
            e.Ok? == r.Ok? && (r.Ok? ==> e.pos == r.pos && e.value.size == |r.value|)
    decreases |inp| - i, 2
  {
    hide *;
    ValuesAgree(inp, i, depth, max, base);
    var v := ValueTokens(inp, i, depth, max, base);
    ItemsUnfold(inp, i, depth, max, base);
    ReadItemsUnfold(inp, i, depth, max);
    if v.Ok? {
      var j := SkipWs(inp, v.pos);
      if j < |inp| && inp[j] == COMMA { ItemsAgree(inp, j + 1, depth, max, base + |v.value|); }
    }
  }

  /** In an array, the tokens of the next item and of those after it. */
  lemma ItemsUnfold(inp: Bytes, i: nat, depth: nat, max: nat, base: nat)
    requires i <= |inp|
    ensures ElementTokens(inp, i, false, depth, max, base) == (
              var v := ValueTokens(inp, i, depth, max, base);
              if v.Fail? then Fail else
              var j := SkipWs(inp, v.pos);
              if j >= |inp| then Fail
              else if inp[j] == COMMA then
                var rest := ElementTokens(inp, j + 1, false, depth, max, base + |v.value|);
                if rest.Fail? then Fail else Ok(Elements(v.value + rest.value.toks, 1 + rest.value.size), rest.pos)
              else if inp[j] == CLOSE_BRACKET then Ok(Elements(v.value, 1), j + 1)
              else Fail)
  {
    hide SkipWs, ValueTokens;
    var v := ValueTokens(inp, i, depth, max, base);
    if v.Ok? { NoKey(v.value); }
  }

  lemma NoKey(v: seq<Tok>)
    ensures [] + v == v
  {
  }

  lemma {:induction false} MembersAgree(inp: Bytes, i: nat, depth: nat, max: nat, base: nat)
    requires i <= |inp|
    ensures var e, r := ElementTokens(inp, i, true, depth, max, base), ReadMembers(inp, i, depth, max);
            e.Ok? == r.Ok? && (r.Ok? ==> e.pos == r.pos && e.value.size == |r.value|)
    decreases |inp| - i, 2
  {
    hide *;
    KeysAgree(inp, i, base);
    var k := KeyToken(inp, i, base);
    MembersUnfold(inp, i, depth, max, base);
    ReadMembersUnfold(inp, i, depth, max);
    if k.Ok? {
      ValuesAgree(inp, k.pos, depth, max, base + 1);
      var v := ValueTokens(inp, k.pos, depth, max, base + 1);
      if v.Ok? {
        var j := SkipWs(inp, v.pos);
        if j < |inp| && inp[j] == COMMA { MembersAgree(inp, j + 1, depth, max, base + 1 + |v.value|); }
      }
    }
  }

  /** In an object, the tokens of the next member and of those after it. */
  lemma MembersUnfold(inp: Bytes, i: nat, depth: nat, max: nat, base: nat)
    requires i <= |inp|
    ensures ElementTokens(inp, i, true, depth, max, base) == (
              var k := KeyToken(inp, i, base);
              if k.Fail? then Fail else
              var v := ValueTokens(inp, k.pos, depth, max, base + 1);
              if v.Fail? then Fail else
              var j := SkipWs(inp, v.pos);
              if j >= |inp| then Fail
              else if inp[j] == COMMA then
                var rest := ElementTokens(inp, j + 1, true, depth, max, base + 1 + |v.value|);
                if rest.Fail? then Fail
                else Ok(Elements([k.value] + v.value + rest.value.toks, 1 + rest.value.size), rest.pos)
              else if inp[j] == CLOSE_BRACE then Ok(Elements([k.value] + v.value, 1), j + 1)
              else Fail)
  {
    hide SkipWs, ValueTokens, KeyToken;
  }

  // --- Denotation ---

  /** The tokens stand in the array from index `base` on. */
  predicate Stand(T: seq<Tok>, base: nat, toks: seq<Tok>)
  {
    base + |toks| <= |T| && T[base..base + |toks|] == toks
  }

  lemma StandParts(T: seq<Tok>, base: nat, a: seq<Tok>, b: seq<Tok>)
    requires Stand(T, base, a + b)
    ensures Stand(T, base, a) && Stand(T, base + |a|, b) && |a + b| == |a| + |b|
  {
    assert T[base..base + |a|] == T[base..base + |a + b|][..|a|];
    assert T[base + |a|..base + |a| + |b|] == T[base..base + |a + b|][|a|..];
  }

  lemma StandFirst(T: seq<Tok>, base: nat, toks: seq<Tok>)
    requires Stand(T, base, toks) && toks != []
    ensures base < |T| && T[base] == toks[0]
  {
    assert T[base..base + |toks|][0] == T[base];
  }

  /** Every token of the range is the root of some subtree. */
  ghost predicate Rooted(inp: Bytes, T: seq<Tok>, a: nat, b: nat)
  {
    forall t :: a <= t < b ==> IsRoot(inp, T, t)
  }

  ghost predicate IsRoot(inp: Bytes, T: seq<Tok>, t: nat) { exists v :: Denotes(inp, T, t, v) }

  lemma {:induction false} ValueDenotes(inp: Bytes, i: nat, depth: nat, max: nat, base: nat, T: seq<Tok>)
    requires i <= |inp| && ValueTokens(inp, i, depth, max, base).Ok?
    requires Stand(T, base, ValueTokens(inp, i, depth, max, base).value)
    ensures ReadValue(inp, i, depth, max).Ok? && base < |T|
    ensures Denotes(inp, T, base, ReadValue(inp, i, depth, max).value)
    ensures var n := |ValueTokens(inp, i, depth, max, base).value|;
            T[base].next == base + n && Rooted(inp, T, base, base + n)
    decreases |inp| - i, 1
  {
    hide SkipWs, ContainerTokens, ReadArray, ReadObject, IsString, ItemsAt, MembersAt, Denotes, Stand, WordTokens,
         StringToken, ScanNumber, ReadString, ReadWord, ReadNumber;
    ValuesAgree(inp, i, depth, max, base);
    var j := SkipWs(inp, i);
    if inp[j] == OPEN_BRACE {
      ObjectDenotes(inp, j, depth, max, base, T);
    } else if inp[j] == OPEN_BRACKET {
      ArrayDenotes(inp, j, depth, max, base, T);
    } else {
      hide ValueTokens, ReadValue;
      ScalarDenotes(inp, i, depth, max, base, T);
      LeafIsRooted(inp, T, base, ReadValue(inp, i, depth, max).value);
    }
  }

  lemma LeafIsRooted(inp: Bytes, T: seq<Tok>, t: nat, v: Json)
    requires Denotes(inp, T, t, v)
    ensures Rooted(inp, T, t, t + 1)
  {
  }

  lemma ScalarDenotes(inp: Bytes, i: nat, depth: nat, max: nat, base: nat, T: seq<Tok>)
    requires i <= |inp| && ValueTokens(inp, i, depth, max, base).Ok? && ReadValue(inp, i, depth, max).Ok?
    requires inp[SkipWs(inp, i)] != OPEN_BRACE && inp[SkipWs(inp, i)] != OPEN_BRACKET
    requires Stand(T, base, ValueTokens(inp, i, depth, max, base).value)
    ensures base < |T| && Denotes(inp, T, base, ReadValue(inp, i, depth, max).value)
    ensures |ValueTokens(inp, i, depth, max, base).value| == 1 && T[base].next == base + 1
  {
    hide SkipWs, StringToken, ReadString, ScanNumber, NumberValue, IsString, ContainerTokens, ReadArray, ReadObject,
         ItemsAt, MembersAt;
    StandFirst(T, base, ValueTokens(inp, i, depth, max, base).value);
    var j := SkipWs(inp, i);
    if inp[j] == QUOTE {
      StringDenotes(inp, j + 1, base);
      TokenNext(inp, j + 1, base);
    }
  }

  lemma TokenNext(inp: Bytes, i: nat, base: nat)
    requires i <= |inp| && StringToken(inp, i, base).Ok?
    ensures StringToken(inp, i, base).value.next == base + 1
  {
  }

  lemma {:induction false} ArrayDenotes(inp: Bytes, i: nat, depth: nat, max: nat, base: nat, T: seq<Tok>)
    requires i < |inp| && ContainerTokens(inp, i, false, depth, max, base).Ok? && ReadArray(inp, i, depth, max).Ok?
    requires Stand(T, base, ContainerTokens(inp, i, false, depth, max, base).value)
    ensures base < |T| && Denotes(inp, T, base, ReadArray(inp, i, depth, max).value)
    ensures var n := |ContainerTokens(inp, i, false, depth, max, base).value|;
            T[base].next == base + n && Rooted(inp, T, base, base + n)
    decreases |inp| - i, 0
  {
    hide SkipWs, ElementTokens, ReadItems;
    var toks := ContainerTokens(inp, i, false, depth, max, base).value;
    StandFirst(T, base, toks);
    var j := SkipWs(inp, i + 1);
    if !(j < |inp| && inp[j] == CLOSE_BRACKET) {
      var e := ElementTokens(inp, j, false, depth + 1, max, base + 1);
      StandParts(T, base, [toks[0]], e.value.toks);
      ItemsAgree(inp, j, depth + 1, max, base + 1);
      ItemsDenote(inp, j, depth + 1, max, base + 1, T);
    }
    assert Denotes(inp, T, base, ReadArray(inp, i, depth, max).value);
  }

  lemma {:induction false} ItemsDenote(inp: Bytes, i: nat, depth: nat, max: nat, base: nat, T: seq<Tok>)
    requires i <= |inp| && ElementTokens(inp, i, false, depth, max, base).Ok? && ReadItems(inp, i, depth, max).Ok?
    requires Stand(T, base, ElementTokens(inp, i, false, depth, max, base).value.toks)
    ensures var e := base + |ElementTokens(inp, i, false, depth, max, base).value.toks|;
            e <= |T| && ItemsAt(inp, T, base, ReadItems(inp, i, depth, max).value, e) && Rooted(inp, T, base, e)
    decreases |inp| - i, 2
  {
    hide SkipWs, ReadValue, ValueTokens, Denotes, Stand, ElementTokens, IsRoot;
    ItemsUnfold(inp, i, depth, max, base);
    var v := ValueTokens(inp, i, depth, max, base);
    var j := SkipWs(inp, v.pos);
    ValuesAgree(inp, i, depth, max, base);
    if inp[j] == COMMA {
      var rest := ElementTokens(inp, j + 1, false, depth, max, base + |v.value|);
      StandParts(T, base, v.value, rest.value.toks);
      ItemsAgree(inp, j + 1, depth, max, base + |v.value|);
      ItemsDenote(inp, j + 1, depth, max, base + |v.value|, T);
    }
    ValueDenotes(inp, i, depth, max, base, T);
    StandBounds(T, base, v.value);
  }

  lemma StandBounds(T: seq<Tok>, base: nat, toks: seq<Tok>)
    requires Stand(T, base, toks)
    ensures base + |toks| <= |T|
  {
  }

  lemma {:induction false} ObjectDenotes(inp: Bytes, i: nat, depth: nat, max: nat, base: nat, T: seq<Tok>)
    requires i < |inp| && ContainerTokens(inp, i, true, depth, max, base).Ok? && ReadObject(inp, i, depth, max).Ok?
    requires Stand(T, base, ContainerTokens(inp, i, true, depth, max, base).value)
    ensures base < |T| && Denotes(inp, T, base, ReadObject(inp, i, depth, max).value)
    ensures var n := |ContainerTokens(inp, i, true, depth, max, base).value|;
            T[base].next == base + n && Rooted(inp, T, base, base + n)
    decreases |inp| - i, 0
  {
    hide SkipWs, ElementTokens, ReadMembers;
    var toks := ContainerTokens(inp, i, true, depth, max, base).value;
    StandFirst(T, base, toks);
    var j := SkipWs(inp, i + 1);
    if !(j < |inp| && inp[j] == CLOSE_BRACE) {
      var e := ElementTokens(inp, j, true, depth + 1, max, base + 1);
      StandParts(T, base, [toks[0]], e.value.toks);
      MembersAgree(inp, j, depth + 1, max, base + 1);
      MembersDenote(inp, j, depth + 1, max, base + 1, T);
    }
    assert Denotes(inp, T, base, ReadObject(inp, i, depth, max).value);
  }

  lemma {:induction false} MembersDenote(inp: Bytes, i: nat, depth: nat, max: nat, base: nat, T: seq<Tok>)
    requires i <= |inp| && ElementTokens(inp, i, true, depth, max, base).Ok? && ReadMembers(inp, i, depth, max).Ok?
    requires Stand(T, base, ElementTokens(inp, i, true, depth, max, base).value.toks)
    ensures var e := base + |ElementTokens(inp, i, true, depth, max, base).value.toks|;
            e <= |T| && MembersAt(inp, T, base, ReadMembers(inp, i, depth, max).value, e) && Rooted(inp, T, base, e)
    decreases |inp| - i, 2
  {
    hide SkipWs, ReadValue, ValueTokens, ReadKey, KeyToken, Denotes, Stand, IsString, ElementTokens, IsRoot;
    KeysAgree(inp, i, base);
    MembersUnfold(inp, i, depth, max, base);
    var k := KeyToken(inp, i, base);
    var v := ValueTokens(inp, k.pos, depth, max, base + 1);
    var j := SkipWs(inp, v.pos);
    ValuesAgree(inp, k.pos, depth, max, base + 1);
    if inp[j] == COMMA {
      var rest := ElementTokens(inp, j + 1, true, depth, max, base + 1 + |v.value|);
      StandParts(T, base, [k.value] + v.value, rest.value.toks);
      MembersAgree(inp, j + 1, depth, max, base + 1 + |v.value|);
      MembersDenote(inp, j + 1, depth, max, base + 1 + |v.value|, T);
    }
    StandParts(T, base, [k.value], v.value);
    StandFirst(T, base, [k.value]);
    ValueDenotes(inp, k.pos, depth, max, base + 1, T);
    StandBounds(T, base + 1, v.value);
    KeyIsRooted(inp, T, base, ReadKey(inp, i).value);
  }

  lemma KeyIsRooted(inp: Bytes, T: seq<Tok>, t: nat, key: Bytes)
    requires t < |T| && IsString(inp, T[t], key) && T[t].next == t + 1
    ensures IsRoot(inp, T, t)
  {
    assert Denotes(inp, T, t, Str(key));
  }

  // --- Elements read one at a time ---

  /** What is read already, before what is still to be read. */
  function Joined(done: seq<Tok>, size: nat, r: Parse<Elements>): Parse<Elements>
  {
    if r.Fail? then Fail else Ok(Elements(done + r.value.toks, size + r.value.size), r.pos)
  }

  lemma JoinedNothing(r: Parse<Elements>)
    ensures Joined([], 0, r) == r
  {
    if r.Ok? { NoKey(r.value.toks); }
  }

  lemma JoinedTwice(done: seq<Tok>, size: nat, more: seq<Tok>, r: Parse<Elements>)
    ensures Joined(done, size, Joined(more, 1, r)) == Joined(done + more, size + 1, r)
  {
    if r.Ok? { assert done + (more + r.value.toks) == done + more + r.value.toks; }
  }

  lemma JoinedLength(done: seq<Tok>, size: nat, r: Parse<Elements>)
    ensures var j := Joined(done, size, r);
            && j.Ok? == r.Ok?
            && (r.Ok? ==> j.pos == r.pos && j.value.toks == done + r.value.toks && j.value.size == size + r.value.size)
            && (r.Ok? ==> |j.value.toks| == |done| + |r.value.toks|)
  {
  }

  lemma ContainerUnfolds(inp: Bytes, i: nat, isObject: bool, depth: nat, max: nat, base: nat)
    requires i < |inp|
    ensures ContainerTokens(inp, i, isObject, depth, max, base) == (
              var j := SkipWs(inp, i + 1);
              var kind := if isObject then ObjectTok else ArrayTok;
              if depth + 1 > max then Fail
              else if j < |inp| && inp[j] == Closing(isObject) then Ok([Single(kind, i, j + 1, base)], j + 1)
              else
                var e := ElementTokens(inp, j, isObject, depth + 1, max, base + 1);
                if e.Fail? then Fail
                else Ok([Tok(kind, i, e.pos, e.value.size, base + 1 + |e.value.toks|, false)] + e.value.toks, e.pos))
  {
    hide SkipWs, ElementTokens;
  }

  /** One element, and what its key and its value say about all of them. */
  lemma ElementUnfolds(
      inp: Bytes, i: nat, isObject: bool, depth: nat, max: nat, base: nat, k: Parse<seq<Tok>>, v: Parse<seq<Tok>>)
    requires i <= |inp| && k == KeyTokens(inp, i, isObject, base)
    requires v == if k.Ok? then ValueTokens(inp, k.pos, depth, max, base + |k.value|) else Fail
    ensures var e := ElementTokens(inp, i, isObject, depth, max, base);
            && (k.Fail? || v.Fail? ==> e.Fail?)
            && (v.Ok? && k.Ok? ==>
                  var j, more := SkipWs(inp, v.pos), k.value + v.value;
                  && i <= k.pos < v.pos <= j <= |inp|
                  && e == (if j >= |inp| then Fail
                           else if inp[j] == COMMA then
                             Joined(more, 1, ElementTokens(inp, j + 1, isObject, depth, max, base + |k.value| + |v.value|))
                           else if inp[j] == Closing(isObject) then Ok(Elements(more, 1), j + 1)
                           else Fail)
                  && (e.Ok? ==> |e.value.toks| >= |k.value| + |v.value|))
  {
    hide SkipWs, ValueTokens, KeyTokens;
  }

  /** The view accepts exactly the documents the parser accepts, and its root denotes the parsed tree. */
  lemma ViewIsParsing(inp: Bytes, max: nat)
    ensures DocumentTokens(inp, max).Some? == ReadDocument(inp, max).Some?
    ensures DocumentTokens(inp, max).Some? ==>
              var T := DocumentTokens(inp, max).value;
              Denotes(inp, T, 0, ReadDocument(inp, max).value) && Rooted(inp, T, 0, |T|) && T[0].next == |T|
  {
    hide ReadValue, ValueTokens, Denotes, SkipWs, Stand;
    ValuesAgree(inp, BomLength(inp), 0, max, 0);
    if DocumentTokens(inp, max).Some? {
      var T := DocumentTokens(inp, max).value;
      WholeStands(T);
      ValueDenotes(inp, BomLength(inp), 0, max, 0, T);
    }
  }

  lemma WholeStands(T: seq<Tok>)
    ensures Stand(T, 0, T)
  {
  }

  /** A subtree denotes one value only. */
  lemma {:induction false} DenotesOne(inp: Bytes, T: seq<Tok>, t: nat, v: Json, w: Json)
    requires Denotes(inp, T, t, v) && Denotes(inp, T, t, w)
    ensures v == w
    decreases v, 1
  {
    hide DecodeSpan, NumberValue;
    match v
    case Arr(items) => ItemsOne(inp, T, t + 1, items, w.items, T[t].next);
    case Obj(ms) => MembersOne(inp, T, t + 1, ms, w.members, T[t].next);
    case _ =>
  }

  lemma {:induction false} ItemsOne(inp: Bytes, T: seq<Tok>, c: nat, a: seq<Json>, b: seq<Json>, end: nat)
    requires |a| == |b| && ItemsAt(inp, T, c, a, end) && ItemsAt(inp, T, c, b, end)
    ensures a == b
    decreases a, 0
  {
    hide Denotes;
    if a != [] {
      DenotesOne(inp, T, c, a[0], b[0]);
      ItemsOne(inp, T, T[c].next, a[1..], b[1..], end);
      assert a == [a[0]] + a[1..] && b == [b[0]] + b[1..];
    }
  }

  lemma {:induction false} MembersOne(inp: Bytes, T: seq<Tok>, c: nat, a: seq<Member>, b: seq<Member>, end: nat)
    requires |a| == |b| && MembersAt(inp, T, c, a, end) && MembersAt(inp, T, c, b, end)
    ensures a == b
    decreases a, 0
  {
    hide Denotes;
    if a != [] {
      DenotesOne(inp, T, c + 1, a[0].value, b[0].value);
      MembersOne(inp, T, T[c + 1].next, a[1..], b[1..], end);
      assert a[0] == b[0];
      assert a == [a[0]] + a[1..] && b == [b[0]] + b[1..];
    }
  }
}
