/** JSON Pointer text (RFC 6901): reading tokens, walking a tree, and writing at a pointer. */
module Pointer {
  import opened Bytes
  import opened Options
  import opened Scan
  import opened Decimal
  import opened JsonValue
  import opened JsonOps

  const TILDE: byte := 0x7E
  const ONE: byte := 0x31

  /** Size of the token buffers, terminator included. */
  const TOKEN_BUFFER: nat := 512

  const MAX_INDEX: nat := 0x7FFF_FFFF

  datatype Token = BadToken | Token(text: Bytes, rest: Bytes)

  /** Reads the next reference token of p, with the bytes of it read so far. */
  function NextToken(p: Bytes, acc: Bytes): (t: Token)
    ensures t.Token? ==> |t.rest| <= |p|
    decreases |p|
  {
    if p == [] || p[0] == SLASH then Token(acc, p)
    else if p[0] == TILDE then
      if |p| < 2 || (p[1] != ZERO && p[1] != ONE) || |acc| + 1 >= TOKEN_BUFFER then BadToken
      else NextToken(p[2..], acc + [if p[1] == ZERO then TILDE else SLASH])
    else if |acc| + 1 >= TOKEN_BUFFER then BadToken
    else NextToken(p[1..], acc + [p[0]])
  }

  /** The array index a token denotes, for an array of `count` items. */
  function ParseIndex(tok: Bytes, count: nat, allowEnd: bool): (r: Option<nat>)
    ensures r.Some? ==> r.value <= count && (allowEnd || r.value < count)
  {
    if allowEnd && tok == [MINUS] then Some(count)
    else if tok == [] || (tok[0] == ZERO && |tok| > 1) then None
    else if !AllDigits(tok) || DigitsValue(tok) > MAX_INDEX then None
    else
      var v := DigitsValue(tok);
      if v > count || (!allowEnd && v >= count) then None else Some(v)
  }

  function GetChild(v: Json, tok: Bytes): Option<Json>
  {
    match v
    case Obj(ms) => GetMember(ms, tok)
    case Arr(items) =>
      var i := ParseIndex(tok, |items|, false);
      if i.Some? then Some(items[i.value]) else None
    case _ => None
  }

  /** The tree with another value in the place of an existing child. */
  function SetChild(v: Json, tok: Bytes, child: Json): Json
    requires GetChild(v, tok).Some?
  {
    match v
    case Obj(ms) => Obj(SetMember(ms, tok, child))
    case Arr(items) => Arr(items[ParseIndex(tok, |items|, false).value := child])
  }

  function PointerGet(v: Json, p: Bytes): Option<Json>
    decreases |p|
  {
    if p == [] then Some(v)
    else if p[0] != SLASH then None
    else
      var t := NextToken(p[1..], []);
      if t.BadToken? then None else
      var child := GetChild(v, t.text);
      if child.None? then None else PointerGet(child.value, t.rest)
  }

  /** The effect on the whole tree of overwriting the value that PointerGet returns. */
  function PointerPut(v: Json, p: Bytes, x: Json): Json
    requires PointerGet(v, p).Some?
    decreases |p|
  {
    if p == [] then x
    else
      var t := NextToken(p[1..], []);
      SetChild(v, t.text, PointerPut(GetChild(v, t.text).value, t.rest, x))
  }

  // --- Paths as lists of tokens ---

  function EscapeToken(tok: Bytes): (r: Bytes)
    ensures SLASH !in r
  {
    if tok == [] then []
    else if tok[0] == TILDE then [TILDE, ZERO] + EscapeToken(tok[1..])
    else if tok[0] == SLASH then [TILDE, ONE] + EscapeToken(tok[1..])
    else [tok[0]] + EscapeToken(tok[1..])
  }

  function PathText(path: seq<Bytes>): Bytes
  {
    if path == [] then [] else [SLASH] + EscapeToken(path[0]) + PathText(path[1..])
  }

  /** A token is read back from its escaped text exactly when it fits the token buffer. */
  lemma {:induction false} TokenReadsBack(tok: Bytes, rest: Bytes, acc: Bytes)
    requires rest == [] || rest[0] == SLASH
    requires |acc| < TOKEN_BUFFER
    ensures NextToken(EscapeToken(tok) + rest, acc)
         == if |acc| + |tok| < TOKEN_BUFFER then Token(acc + tok, rest) else BadToken
    decreases |tok|
  {
    var p := EscapeToken(tok) + rest;
    if tok == [] {
      assert p == rest;
      assert acc + tok == acc;
    } else {
      var esc := EscapeToken(tok)[..|EscapeToken(tok)| - |EscapeToken(tok[1..])|];
      assert p == esc + (EscapeToken(tok[1..]) + rest);
      assert p[|esc|..] == EscapeToken(tok[1..]) + rest;
      if |acc| + 1 < TOKEN_BUFFER {
        TokenReadsBack(tok[1..], rest, acc + [tok[0]]);
        assert acc + [tok[0]] + tok[1..] == acc + tok;
      }
    }
  }

  predicate ShortPath(path: seq<Bytes>) { forall i :: 0 <= i < |path| ==> |path[i]| < TOKEN_BUFFER }

  function Walk(v: Json, path: seq<Bytes>): Option<Json>
    decreases |path|
  {
    if path == [] then Some(v) else
    var child := GetChild(v, path[0]);
    if child.None? then None else Walk(child.value, path[1..])
  }

  function Put(v: Json, path: seq<Bytes>, x: Json): Json
    requires Walk(v, path).Some?
    decreases |path|
  {
    if path == [] then x else SetChild(v, path[0], Put(GetChild(v, path[0]).value, path[1..], x))
  }

  /** A pointer made from short tokens leads where the tokens lead. */
  lemma {:induction false} PointerWalks(v: Json, path: seq<Bytes>)
    requires ShortPath(path)
    ensures PointerGet(v, PathText(path)) == Walk(v, path)
    ensures Walk(v, path).Some? ==> forall x :: PointerPut(v, PathText(path), x) == Put(v, path, x)
    decreases |path|
  {
    if path != [] {
      assert PathText(path)[1..] == EscapeToken(path[0]) + PathText(path[1..]);
      TokenReadsBack(path[0], PathText(path[1..]), []);
      assert [] + path[0] == path[0];
      var child := GetChild(v, path[0]);
      if child.Some? { PointerWalks(child.value, path[1..]); }
    }
  }

  /** A pointer with a token that does not fit leads nowhere. */
  lemma {:induction false} LongPointerFails(v: Json, path: seq<Bytes>)
    requires !ShortPath(path)
    ensures PointerGet(v, PathText(path)) == None
    decreases |path|
  {
    assert PathText(path)[1..] == EscapeToken(path[0]) + PathText(path[1..]);
    TokenReadsBack(path[0], PathText(path[1..]), []);
    assert [] + path[0] == path[0];
    if |path[0]| < TOKEN_BUFFER {
      assert !ShortPath(path[1..]) by {
        var i :| 0 <= i < |path| && |path[i]| >= TOKEN_BUFFER;
        assert path[1..][i - 1] == path[i];
      }
      var child := GetChild(v, path[0]);
      if child.Some? { LongPointerFails(child.value, path[1..]); }
    }
  }

  /** Decimal text denotes its number as an array index. */
  lemma IndexReadsBack(i: nat, count: nat, allowEnd: bool)
    requires i <= MAX_INDEX && (i < count || (allowEnd && i == count))
    ensures ParseIndex(DecimalText(i), count, allowEnd) == Some(i)
  {
    DecimalValue(i);
    assert DecimalText(i)[0] != MINUS;
  }

  lemma IndexIsShort(i: nat)
    requires i <= MAX_INDEX
    ensures |DecimalText(i)| < TOKEN_BUFFER
  {
    assert Pow10(10) > MAX_INDEX by {
      assert Pow10(5) == 100000;
      assert Pow10(10) == 100000 * Pow10(5) by { assert Pow10(8) == 1000 * Pow10(5); }
    }
    DecimalLength(i, 10);
  }

  // --- Getting after putting ---

  lemma SetThenGet(ms: seq<Member>, k: Bytes, v: Json)
    ensures FindKey(SetMember(ms, k, v), k) == FindKey(ms, k)
    ensures GetMember(SetMember(ms, k, v), k) == Some(v)
    ensures forall j :: j != k ==> GetMember(SetMember(ms, k, v), j) == GetMember(ms, j)
  {
    var i := FindKey(ms, k);
    var r := SetMember(ms, k, v);
    FirstIsFound(r, k, i);
    forall j | j != k ensures GetMember(r, j) == GetMember(ms, j) {
      var f := FindKey(ms, j);
      if f < |ms| { FirstIsFound(r, j, f); } else { AbsentIsNotFound(r, j); }
    }
  }

  lemma FirstIsFound(ms: seq<Member>, k: Bytes, i: nat)
    requires i < |ms| && ms[i].key == k && forall j :: 0 <= j < i ==> ms[j].key != k
    ensures FindKey(ms, k) == i
  {
  }

  lemma AbsentIsNotFound(ms: seq<Member>, k: Bytes)
    requires forall j :: 0 <= j < |ms| ==> ms[j].key != k
    ensures FindKey(ms, k) == |ms|
  {
  }

  lemma ChildAfterSet(v: Json, k: Bytes, x: Json)
    requires GetChild(v, k).Some?
    ensures GetChild(SetChild(v, k, x), k) == Some(x)
    ensures forall y :: SetChild(SetChild(v, k, x), k, y) == SetChild(v, k, y)
  {
    match v
    case Obj(ms) => SetThenGet(ms, k, x);
    case Arr(items) =>
  }

  lemma {:induction false} WalkAfterPut(v: Json, path: seq<Bytes>, x: Json)
    requires Walk(v, path).Some?
    ensures Walk(Put(v, path, x), path) == Some(x)
    ensures forall y :: Put(Put(v, path, x), path, y) == Put(v, path, y)
    decreases |path|
  {
    if path != [] {
      var child := GetChild(v, path[0]).value;
      WalkAfterPut(child, path[1..], x);
      ChildAfterSet(v, path[0], Put(child, path[1..], x));
      forall y ensures Put(Put(v, path, x), path, y) == Put(v, path, y) {
      }
    }
  }
}
