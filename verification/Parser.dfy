/** What the recursive-descent parser accepts and the tree it builds, as functions of the input and a position. */
module ParserSpec {
  import opened Bytes
  import opened Options
  import opened JsonValue
  import opened Scan

  datatype Parse<+T> = Fail | Ok(value: T, pos: nat)

  /** Reads string characters from i (after the opening quote) up to and past the closing quote. */
  function ReadString(inp: Bytes, i: nat): (r: Parse<Bytes>)
    requires i <= |inp|
    ensures r.Ok? ==> i < r.pos <= |inp|
    decreases |inp| - i
  {
    if i >= |inp| then Fail
    else if inp[i] == QUOTE then Ok([], i + 1)
    else if inp[i] == BACKSLASH then
      var e := DecodeEscape(inp, i, |inp|);
      if e.BadEscape? then Fail else Prepend(e.out, ReadString(inp, i + e.used))
    else if inp[i] < 0x20 then Fail
    else
      var len := Utf8Length(inp, i, |inp|);
      if len == 0 then Fail else Prepend(inp[i..i + len], ReadString(inp, i + len))
  }

  function Prepend(head: Bytes, r: Parse<Bytes>): Parse<Bytes>
  {
    if r.Fail? then Fail else Ok(head + r.value, r.pos)
  }

  function ReadWord(inp: Bytes, i: nat, word: Bytes, v: Json): (r: Parse<Json>)
    requires i <= |inp| && word != []
    ensures r.Ok? ==> i < r.pos <= |inp|
  {
    if |inp| - i < |word| || inp[i..i + |word|] != word then Fail else Ok(v, i + |word|)
  }

  function ReadNumber(inp: Bytes, i: nat): (r: Parse<Json>)
    requires i <= |inp|
    ensures r.Ok? ==> i < r.pos <= |inp|
  {
    var e := ScanNumber(inp, i, |inp|);
    if e.None? then Fail else Ok(Num(NumberValue(inp[i..e.value])), e.value)
  }

  /** A value at i, inside `depth` open containers. */
  function ReadValue(inp: Bytes, i: nat, depth: nat, max: nat): (r: Parse<Json>)
    requires i <= |inp|
    ensures r.Ok? ==> i < r.pos <= |inp|
    decreases |inp| - i, 1
  {
    var j := SkipWs(inp, i);
    if j >= |inp| then Fail else
    var c := inp[j];
    if c == OPEN_BRACE then ReadObject(inp, j, depth, max)
    else if c == OPEN_BRACKET then ReadArray(inp, j, depth, max)
    else if c == QUOTE then
      var s := ReadString(inp, j + 1);
      if s.Fail? then Fail else Ok(Str(s.value), s.pos)
    else if c == LOWER_T then ReadWord(inp, j, TRUE_WORD, Bool(true))
    else if c == LOWER_F then ReadWord(inp, j, FALSE_WORD, Bool(false))
    else if c == LOWER_N then ReadWord(inp, j, NULL_WORD, Null)
    else if c == MINUS || IsDigit(c) then ReadNumber(inp, j)
    else Fail
  }

  function ReadArray(inp: Bytes, i: nat, depth: nat, max: nat): (r: Parse<Json>)
    requires i < |inp|
    ensures r.Ok? ==> i < r.pos <= |inp|
    decreases |inp| - i, 0
  {
    if depth + 1 > max then Fail else
    var j := SkipWs(inp, i + 1);
    if j < |inp| && inp[j] == CLOSE_BRACKET then Ok(Arr([]), j + 1) else
    var items := ReadItems(inp, j, depth + 1, max);
    if items.Fail? then Fail else Ok(Arr(items.value), items.pos)
  }

  /** One or more comma-separated items from i, past the closing bracket. */
  function ReadItems(inp: Bytes, i: nat, depth: nat, max: nat): (r: Parse<seq<Json>>)
    requires i <= |inp|
    ensures r.Ok? ==> i < r.pos <= |inp|
    decreases |inp| - i, 2
  {
    var v := ReadValue(inp, i, depth, max);
    if v.Fail? then Fail else
    var j := SkipWs(inp, v.pos);
    if j >= |inp| then Fail
    else if inp[j] == COMMA then
      var rest := ReadItems(inp, j + 1, depth, max);
      if rest.Fail? then Fail else Ok([v.value] + rest.value, rest.pos)
    else if inp[j] == CLOSE_BRACKET then Ok([v.value], j + 1)
    else Fail
  }

  function ReadObject(inp: Bytes, i: nat, depth: nat, max: nat): (r: Parse<Json>)
    requires i < |inp|
    ensures r.Ok? ==> i < r.pos <= |inp|
    decreases |inp| - i, 0
  {
    if depth + 1 > max then Fail else
    var j := SkipWs(inp, i + 1);
    if j < |inp| && inp[j] == CLOSE_BRACE then Ok(Obj([]), j + 1) else
    var members := ReadMembers(inp, j, depth + 1, max);
    if members.Fail? then Fail else Ok(Obj(members.value), members.pos)
  }

  /** A string key and its colon from i. */
  function ReadKey(inp: Bytes, i: nat): (r: Parse<Bytes>)
    requires i <= |inp|
    ensures r.Ok? ==> i < r.pos <= |inp|
  {
    var j := SkipWs(inp, i);
    if j >= |inp| || inp[j] != QUOTE then Fail else
    var key := ReadString(inp, j + 1);
    if key.Fail? then Fail else
    var k := SkipWs(inp, key.pos);
    if k >= |inp| || inp[k] != COLON then Fail else Ok(key.value, k + 1)
  }

  /** One or more comma-separated members from i, past the closing brace. */
  function ReadMembers(inp: Bytes, i: nat, depth: nat, max: nat): (r: Parse<seq<Member>>)
    requires i <= |inp|
    ensures r.Ok? ==> i < r.pos <= |inp|
    decreases |inp| - i, 2
  {
    var key := ReadKey(inp, i);
    if key.Fail? then Fail else
    var v := ReadValue(inp, key.pos, depth, max);
    if v.Fail? then Fail else
    var j := SkipWs(inp, v.pos);
    if j >= |inp| then Fail
    else if inp[j] == COMMA then
      var rest := ReadMembers(inp, j + 1, depth, max);
      if rest.Fail? then Fail else Ok([Member(key.value, v.value)] + rest.value, rest.pos)
    else if inp[j] == CLOSE_BRACE then Ok([Member(key.value, v.value)], j + 1)
    else Fail
  }

  const BOM: Bytes := [0xEF, 0xBB, 0xBF]

  function BomLength(inp: Bytes): (n: nat)
    ensures n <= |inp|
  {
    if |inp| >= 3 && inp[..3] == BOM then 3 else 0
  }

  /** The whole document: an optional byte order mark, one value, whitespace. */
  function ReadDocument(inp: Bytes, max: nat): Option<Json>
  {
    var v := ReadValue(inp, BomLength(inp), 0, max);
    if v.Fail? || SkipWs(inp, v.pos) < |inp| then None else Some(v.value)
  }
}

/** Lemmas behind the two-phase string reader: find the closing quote, then decode. */
module StringPhases {
  import opened Bytes
  import opened Options
  import opened Scan
  import opened Utf8
  import opened ScanLoops
  import opened ParserSpec

  /** The closing quote, stepping over each backslash and the byte after it. */
  function FindClose(inp: Bytes, i: nat): (r: Option<nat>)
    requires i <= |inp|
    ensures r.Some? ==> i <= r.value < |inp| && inp[r.value] == QUOTE
    decreases |inp| - i
  {
    var j := SpecialAt(inp, i);
    if j >= |inp| then None
    else if inp[j] == QUOTE then Some(j)
    else if inp[j] == BACKSLASH && |inp| - j >= 2 then FindClose(inp, j + 2)
    else None
  }

  lemma {:induction false} SpecialSkips(inp: Bytes, i: nat, j: nat)
    requires i <= j <= |inp| && forall k :: i <= k < j ==> !IsSpecial(inp[k])
    ensures SpecialAt(inp, i) == SpecialAt(inp, j)
    decreases j - i
  {
    if i < j { SpecialSkips(inp, i + 1, j); }
  }

  lemma CloseSkips(inp: Bytes, i: nat, j: nat)
    requires i <= j <= |inp| && forall k :: i <= k < j ==> !IsSpecial(inp[k])
    ensures FindClose(inp, i) == FindClose(inp, j)
  {
    SpecialSkips(inp, i, j);
  }

  lemma HexIsPlain(inp: Bytes, i: nat)
    requires i + 4 <= |inp| && Hex4(inp, i) >= 0
    ensures forall k :: i <= k < i + 4 ==> !IsSpecial(inp[k])
  {
  }

  /** A decodable escape does not hide the closing quote. */
  lemma CloseAfterEscape(inp: Bytes, i: nat)
    requires i < |inp| && inp[i] == BACKSLASH
    ensures var e := DecodeEscape(inp, i, |inp|);
            e.Escaped? ==> FindClose(inp, i) == FindClose(inp, i + e.used)
  {
    var e := DecodeEscape(inp, i, |inp|);
    if e.Escaped? {
      assert FindClose(inp, i) == FindClose(inp, i + 2);
      if inp[i + 1] == LOWER_U {
        HexIsPlain(inp, i + 2);
        CloseSkips(inp, i + 2, i + 6);
        if e.used == 12 {
          assert FindClose(inp, i + 6) == FindClose(inp, i + 8);
          HexIsPlain(inp, i + 8);
          CloseSkips(inp, i + 8, i + 12);
        }
      }
    }
  }

  /** A string that reads well closes where the first phase says. */
  lemma {:induction false} ReadHasClose(inp: Bytes, i: nat)
    requires i <= |inp| && ReadString(inp, i).Ok?
    ensures FindClose(inp, i) == Some(ReadString(inp, i).pos - 1)
    decreases |inp| - i
  {
    hide FindClose, SpecialAt, DecodeEscape, Utf8Length;
    if inp[i] == QUOTE {
      CloseAtQuote(inp, i);
    } else if inp[i] == BACKSLASH {
      CloseAfterEscape(inp, i);
      ReadHasClose(inp, i + DecodeEscape(inp, i, |inp|).used);
    } else {
      var len := Utf8Length(inp, i, |inp|);
      CloseSkips(inp, i, i + len);
      ReadHasClose(inp, i + len);
    }
  }

  lemma CloseAtQuote(inp: Bytes, i: nat)
    requires i < |inp| && inp[i] == QUOTE
    ensures FindClose(inp, i) == Some(i)
  {
  }

  /** The end of the string bounds an escape no more than the end of the input does. */
  lemma EscapeWithin(inp: Bytes, i: nat, r: nat)
    requires i < r < |inp| && inp[i] == BACKSLASH && FindClose(inp, i) == Some(r)
    ensures DecodeEscape(inp, i, r) == DecodeEscape(inp, i, |inp|)
    ensures var e := DecodeEscape(inp, i, r); e.Escaped? ==> FindClose(inp, i + e.used) == Some(r)
  {
    CloseAfterEscape(inp, i);
  }

  lemma LengthWithin(inp: Bytes, i: nat, y: nat)
    requires i < y < |inp| && IsSpecial(inp[y]) && !IsSpecial(inp[i])
    requires forall k :: i <= k < y ==> !IsSpecial(inp[k])
    ensures Utf8Length(inp, i, |inp|) == Utf8Length(inp, i, y)
  {
  }

  /** The bytes up to the next special character are valid UTF-8 and copied, or the string is rejected. */
  lemma {:induction false} SegmentReads(inp: Bytes, x: nat, y: nat)
    requires x <= y < |inp| && IsSpecial(inp[y]) && forall k :: x <= k < y ==> !IsSpecial(inp[k])
    ensures ReadString(inp, x)
         == if InvalidAt(inp, x, y) != y then Fail else Prepend(inp[x..y], ReadString(inp, y))
    decreases y - x
  {
    hide ReadString, Utf8Length;
    if x < y {
      LengthWithin(inp, x, y);
      ReadsChar(inp, x);
      var len := Utf8Length(inp, x, y);
      if len > 0 {
        SegmentReads(inp, x + len, y);
        PrependTwice(inp[x..x + len], inp[x + len..y], ReadString(inp, y));
        assert inp[x..x + len] + inp[x + len..y] == inp[x..y];
      }
    } else {
      assert inp[x..y] == [];
      PrependNothing(ReadString(inp, y));
    }
  }

  lemma ReadsChar(inp: Bytes, x: nat)
    requires x < |inp| && !IsSpecial(inp[x])
    ensures var len := Utf8Length(inp, x, |inp|);
            ReadString(inp, x) == if len == 0 then Fail else Prepend(inp[x..x + len], ReadString(inp, x + len))
  {
    hide Utf8Length;
  }

  lemma NoClose(inp: Bytes, i: nat)
    requires i <= |inp| && FindClose(inp, i) == None
    ensures ReadString(inp, i).Fail?
  {
    if ReadString(inp, i).Ok? { ReadHasClose(inp, i); }
  }

  lemma ReadsEscape(inp: Bytes, i: nat)
    requires i < |inp| && inp[i] == BACKSLASH
    ensures var e := DecodeEscape(inp, i, |inp|);
            ReadString(inp, i) == if e.BadEscape? then Fail else Prepend(e.out, ReadString(inp, i + e.used))
  {
  }

  lemma ReadsQuote(inp: Bytes, i: nat, d: Bytes)
    requires i < |inp| && inp[i] == QUOTE
    ensures Prepend(d, ReadString(inp, i)) == Ok(d, i + 1)
  {
    assert d + [] == d;
  }

  lemma PrependFail(d: Bytes)
    ensures Prepend(d, Fail) == Fail
  {
  }

  lemma PrependNothing(r: Parse<Bytes>)
    ensures Prepend([], r) == r
  {
    if r.Ok? { assert [] + r.value == r.value; }
  }

  lemma PrependTwice(a: Bytes, b: Bytes, r: Parse<Bytes>)
    ensures Prepend(a, Prepend(b, r)) == Prepend(a + b, r)
  {
    if r.Ok? { assert a + (b + r.value) == a + b + r.value; }
  }
}

/** Lists read one element at a time. */
module ListReading {
  import opened Bytes
  import opened JsonValue
  import opened Scan
  import opened ParserSpec

  /** The next item, and those after it. */
  lemma ReadItemsUnfold(inp: Bytes, i: nat, depth: nat, max: nat)
    requires i <= |inp|
    ensures ReadItems(inp, i, depth, max) == (
              var v := ReadValue(inp, i, depth, max);
              if v.Fail? then Fail else
              var j := SkipWs(inp, v.pos);
              if j >= |inp| then Fail
              else if inp[j] == COMMA then
                var rest := ReadItems(inp, j + 1, depth, max);
                if rest.Fail? then Fail else Ok([v.value] + rest.value, rest.pos)
              else if inp[j] == CLOSE_BRACKET then Ok([v.value], j + 1)
              else Fail)
  {
    hide SkipWs, ReadValue;
  }

  /** The next member, and those after it. */
  lemma ReadMembersUnfold(inp: Bytes, i: nat, depth: nat, max: nat)
    requires i <= |inp|
    ensures ReadMembers(inp, i, depth, max) == (
              var k := ReadKey(inp, i);
              if k.Fail? then Fail else
              var v := ReadValue(inp, k.pos, depth, max);
              if v.Fail? then Fail else
              var j := SkipWs(inp, v.pos);
              if j >= |inp| then Fail
              else if inp[j] == COMMA then
                var rest := ReadMembers(inp, j + 1, depth, max);
                if rest.Fail? then Fail else Ok([Member(k.value, v.value)] + rest.value, rest.pos)
              else if inp[j] == CLOSE_BRACE then Ok([Member(k.value, v.value)], j + 1)
              else Fail)
  {
    hide SkipWs, ReadValue, ReadKey;
  }

  function Join<T>(head: seq<T>, r: Parse<seq<T>>): Parse<seq<T>>
  {
    if r.Fail? then Fail else Ok(head + r.value, r.pos)
  }

  lemma JoinNothing<T>(r: Parse<seq<T>>)
    ensures Join([], r) == r
  {
    if r.Ok? { assert [] + r.value == r.value; }
  }

  lemma JoinTwice<T>(a: seq<T>, b: seq<T>, r: Parse<seq<T>>)
    ensures Join(a, Join(b, r)) == Join(a + b, r)
  {
    if r.Ok? { assert a + (b + r.value) == a + b + r.value; }
  }
}

/** The parser in its own form: a cursor and a depth counter that recursive methods advance. */
module Parser {
  import opened Bytes
  import opened Options
  import opened JsonValue
  import opened Scan
  import opened Utf8
  import opened ScanLoops
  import opened ParserSpec
  import opened StringPhases
  import opened ListReading

  class Context {
    const input: Bytes
    const maxDepth: nat
    var p: nat
    var depth: nat

    constructor (input: Bytes, maxDepth: nat)
      ensures this.input == input && this.maxDepth == maxDepth && p == 0 && depth == 0
    {
      this.input := input;
      this.maxDepth := maxDepth;
      p, depth := 0, 0;
    }

    /** The method's result and the cursor agree with what the specification reads. */
    ghost predicate Agrees<T(!new)>(r: Option<T>, spec: Parse<T>)
      reads this
    {
      match spec
      case Fail => r == None
      case Ok(v, pos) => r == Some(v) && p == pos
    }

    method SkipSpace()
      requires p <= |input|
      modifies this`p
      ensures p == SkipWs(input, old(p))
    {
      p := ScanWs(input, p);
    }

    /** The string whose opening quote is at the cursor. */
    method ParseString() returns (r: Option<Bytes>)
      requires p < |input|
      modifies this`p
      ensures p <= |input| && Agrees(r, ReadString(input, old(p) + 1))
    {
      var s := p + 1;
      var q := ScanStringSpecial(input, s);
      if q < |input| && input[q] == QUOTE { // fast path: no escapes
        SegmentReads(input, s, q);
        var bad := Utf8InvalidAt(input, s, q);
        if bad != q { return None; }
        ReadsQuote(input, q, input[s..q]);
        p := q + 1;
        return Some(input[s..q]);
      }
      var close := Locate(s, q);
      if close == None {
        NoClose(input, s);
        return None;
      }
      r := Decode(s, close.value);
      if r != None { p := close.value + 1; }
    }

    /** Slow path, first phase: the closing quote of the string at s whose first special character is at q. */
    method Locate(s: nat, q: nat) returns (close: Option<nat>)
      requires s <= |input| && q == SpecialAt(input, s)
      ensures close == FindClose(input, s)
    {
      var r := q;
      ghost var from := s;
      while true
        invariant s <= from <= r <= |input| && r == SpecialAt(input, from)
        invariant FindClose(input, from) == FindClose(input, s)
        decreases |input| - r
      {
        if r >= |input| { return None; }
        if input[r] == QUOTE { return Some(r); }
        if input[r] == BACKSLASH {
          if |input| - r < 2 { return None; }
          from := r + 2;
          r := ScanStringSpecial(input, r + 2);
          continue;
        }
        return None;
      }
    }

    /** Slow path, second phase: decodes the escapes and checks the UTF-8 between them. */
    method Decode(s: nat, r: nat) returns (out: Option<Bytes>)
      requires s <= r < |input| && FindClose(input, s) == Some(r)
      ensures out == None ==> ReadString(input, s).Fail?
      ensures out != None ==> ReadString(input, s) == Ok(out.value, r + 1)
    {
      hide ReadString, FindClose, DecodeEscape, InvalidAt, SpecialAt, Prepend;
      var d: Bytes := [];
      var x := s;
      PrependNothing(ReadString(input, s));
      while x < r
        invariant s <= x <= r && FindClose(input, x) == Some(r)
        invariant ReadString(input, s) == Prepend(d, ReadString(input, x))
      {
        var y := FirstBackslash(x, r);
        SegmentReads(input, x, y);
        var bad := Utf8InvalidAt(input, x, y);
        if bad != y {
          PrependFail(d);
          return None;
        }
        PrependTwice(d, input[x..y], ReadString(input, y));
        CloseSkips(input, x, y);
        d := d + input[x..y];
        x := y;
        if x < r {
          EscapeWithin(input, x, r);
          var e := DecodeEscape(input, x, r);
          ReadsEscape(input, x);
          if e.BadEscape? {
            PrependFail(d);
            return None;
          }
          PrependTwice(d, e.out, ReadString(input, x + e.used));
          d := d + e.out;
          x := x + e.used;
        }
      }
      ReadsQuote(input, r, d);
      return Some(d);
    }

    /** The first backslash of [x, r), or r. */
    method FirstBackslash(x: nat, r: nat) returns (y: nat)
      requires x < r < |input| && FindClose(input, x) == Some(r)
      ensures x <= y <= r && y == SpecialAt(input, x) && (y < r ==> input[y] == BACKSLASH)
    {
      y := x;
      while y < r && input[y] != BACKSLASH
        invariant x <= y <= r && y <= SpecialAt(input, x)
        invariant SpecialAt(input, x) <= r
      {
        y := y + 1;
      }
    }

    method ParseLiteral(word: Bytes, v: Json) returns (r: Option<Json>)
      requires p <= |input| && word != []
      modifies this`p
      ensures p <= |input| && Agrees(r, ReadWord(input, old(p), word, v))
    {
      if |input| - p < |word| || input[p..p + |word|] != word { return None; }
      p := p + |word|;
      return Some(v);
    }

    method ParseNumber() returns (r: Option<Json>)
      requires p <= |input|
      modifies this`p
      ensures p <= |input| && Agrees(r, ReadNumber(input, old(p)))
    {
      hide ScanNumber, NumberValue;
      var e := ScanNumberToken(input, p, |input|);
      if e == None { return None; }
      r := Some(Num(NumberValue(input[p..e.value])));
      p := e.value;
    }

    method ParseValue() returns (r: Option<Json>)
      requires p <= |input|
      modifies this
      ensures p <= |input| && Agrees(r, ReadValue(input, old(p), old(depth), maxDepth))
      ensures r != None ==> depth == old(depth)
      decreases |input| - p, 1
    {
      SkipSpace();
      if p >= |input| { return None; }
      var c := input[p];
      if c == OPEN_BRACE {
        r := ParseObject();
      } else if c == OPEN_BRACKET {
        r := ParseArray();
      } else if c == QUOTE {
        var s := ParseString();
        if s == None { return None; }
        r := Some(Str(s.value));
      } else if c == LOWER_T {
        r := ParseLiteral(TRUE_WORD, Bool(true));
      } else if c == LOWER_F {
        r := ParseLiteral(FALSE_WORD, Bool(false));
      } else if c == LOWER_N {
        r := ParseLiteral(NULL_WORD, Null);
      } else if c == MINUS || IsDigit(c) {
        r := ParseNumber();
      } else {
        r := None;
      }
    }

    method ParseArray() returns (r: Option<Json>)
      requires p < |input|
      modifies this
      ensures p <= |input| && Agrees(r, ReadArray(input, old(p), old(depth), maxDepth))
      ensures r != None ==> depth == old(depth)
      decreases |input| - p, 0
    {
      hide ReadValue, ReadItems, SkipWs, IsWs;
      ghost var d := depth;
      p := p + 1;
      depth := depth + 1;
      if depth > maxDepth { return None; }
      SkipSpace();
      if p < |input| && input[p] == CLOSE_BRACKET {
        p := p + 1;
        depth := depth - 1;
        return Some(Arr([]));
      }
      ghost var start := p;
      var items: seq<Json> := [];
      JoinNothing(ReadItems(input, start, depth, maxDepth));
      while true
        invariant old(p) < start <= p <= |input| && depth == d + 1
        invariant ReadItems(input, start, depth, maxDepth) == Join(items, ReadItems(input, p, depth, maxDepth))
        decreases |input| - p
      {
        ReadItemsUnfold(input, p, depth, maxDepth);
        var item := ParseValue();
        if item == None { return None; }
        SkipSpace();
        if p >= |input| { return None; }
        if input[p] == COMMA {
          p := p + 1;
          JoinTwice(items, [item.value], ReadItems(input, p, depth, maxDepth));
          items := items + [item.value];
          continue;
        }
        if input[p] == CLOSE_BRACKET {
          p := p + 1;
          items := items + [item.value];
          break;
        }
        return None;
      }
      depth := depth - 1;
      return Some(Arr(items));
    }

    /** A string key and its colon. */
    method ParseKey() returns (r: Option<Bytes>)
      requires p <= |input|
      modifies this`p
      ensures p <= |input| && Agrees(r, ReadKey(input, old(p)))
    {
      hide ReadString;
      SkipSpace();
      if p >= |input| { return None; }
      if input[p] != QUOTE { return None; }
      var key := ParseString();
      if key == None { return None; }
      SkipSpace();
      if p >= |input| || input[p] != COLON { return None; }
      p := p + 1;
      return key;
    }

    method ParseObject() returns (r: Option<Json>)
      requires p < |input|
      modifies this
      ensures p <= |input| && Agrees(r, ReadObject(input, old(p), old(depth), maxDepth))
      ensures r != None ==> depth == old(depth)
      decreases |input| - p, 0
    {
      hide ReadKey, ReadValue, ReadMembers, ReadString, SkipWs, IsWs;
      ghost var d := depth;
      p := p + 1;
      depth := depth + 1;
      if depth > maxDepth { return None; }
      SkipSpace();
      if p < |input| && input[p] == CLOSE_BRACE {
        p := p + 1;
        depth := depth - 1;
        return Some(Obj([]));
      }
      ghost var start := p;
      var members: seq<Member> := [];
      JoinNothing(ReadMembers(input, start, depth, maxDepth));
      while true
        invariant old(p) < start <= p <= |input| && depth == d + 1
        invariant ReadMembers(input, start, depth, maxDepth) == Join(members, ReadMembers(input, p, depth, maxDepth))
        decreases |input| - p
      {
        ReadMembersUnfold(input, p, depth, maxDepth);
        var key := ParseKey();
        if key == None { return None; }
        var val := ParseValue();
        if val == None { return None; }
        var m := Member(key.value, val.value);
        SkipSpace();
        if p >= |input| { return None; }
        if input[p] == COMMA {
          p := p + 1;
          JoinTwice(members, [m], ReadMembers(input, p, depth, maxDepth));
          members := members + [m];
          continue;
        }
        if input[p] == CLOSE_BRACE {
          p := p + 1;
          members := members + [m];
          break;
        }
        return None;
      }
      depth := depth - 1;
      return Some(Obj(members));
    }
  }

  /** Parses a document with the default options and the given depth limit. */
  method Parse(input: Bytes, maxDepth: nat) returns (root: Option<Json>)
    ensures root == ReadDocument(input, maxDepth)
  {
    var c := new Context(input, maxDepth);
    if |input| >= 3 && input[..3] == BOM { c.p := 3; }
    root := c.ParseValue();
    if root != None {
      c.SkipSpace();
      if c.p < |input| { root := None; }
    }
  }
}
