/** The token view in its own form: tokens written and patched in an array behind a moving cursor. */
module View {
  import opened Bytes
  import opened Options
  import opened JsonValue
  import opened Scan
  import opened Utf8
  import opened ScanLoops
  import opened ParserSpec
  import opened ViewSpec
  import opened ViewAgreement

  /** Indexes a document; the cursor and the depth belong to the indexing. */
  class Indexer {
    const json: Bytes
    const maxDepth: nat
    const owned: bool // the array belongs to the view and grows; otherwise it is the caller's and does not
    var tokens: array<Tok>
    var count: nat
    var pos: nat
    var depth: nat

    ghost predicate Valid()
      reads this`tokens, this`count, this`pos
    {
      count <= tokens.Length && pos <= |json|
    }

    ghost function Toks(): seq<Tok>
      requires Valid()
      reads this`tokens, this`count, this`pos, tokens
    {
      tokens[..count]
    }

    constructor (json: Bytes, maxDepth: nat, given: array?<Tok>)
      ensures Valid() && count == 0 && pos == 0 && depth == 0
      ensures this.json == json && this.maxDepth == maxDepth && owned == (given == null)
      ensures given == null ==> fresh(tokens)
      ensures given != null ==> tokens == given
    {
      this.json, this.maxDepth, owned := json, maxDepth, given == null;
      if given == null { tokens := new Tok[0]; } else { tokens := given; }
      count, pos, depth := 0, 0, 0;
    }

    /** What a call that appends these tokens and ends there must have done; it may fail for lack of room only. */
    static predicate Wrote(ok: bool, room: Option<nat>, before: seq<Tok>, after: seq<Tok>, toks: seq<Tok>, at: nat, end: nat)
    {
      && ok == (room.None? || |before| + |toks| <= room.value)
      && (ok ==> at == end && after == before + toks)
    }

    /** The size of the caller's array; none when the array grows. */
    ghost function Room(): Option<nat>
      reads this`tokens
    {
      if owned then None else Some(tokens.Length)
    }

    twostate predicate Kept()
      reads this`tokens
    {
      (tokens == old(tokens) || (owned && fresh(tokens))) && (!owned ==> tokens == old(tokens))
    }

    method Emit(kind: Kind, s: nat, e: nat) returns (ok: bool)
      requires Valid()
      modifies this`tokens, this`count, tokens
      ensures Valid() && Kept() && Wrote(ok, old(Room()), old(Toks()), Toks(), [Single(kind, s, e, old(count))], pos, pos)
      ensures !ok ==> count == old(count)
    {
      if count == tokens.Length {
        if !owned { return false; }
        var grown, from := new Tok[if tokens.Length > 0 then tokens.Length * 2 else 64], tokens;
        var i := 0;
        while i < count
          invariant 0 <= i <= count <= grown.Length && tokens == from && count == from.Length == old(count)
          invariant from[..] == old(tokens[..]) && grown[..i] == from[..i]
        {
          grown[i] := from[i];
          i := i + 1;
        }
        tokens := grown;
      }
      tokens[count] := Tok(kind, s, e, 0, count + 1, false);
      count := count + 1;
      return true;
    }

    method SkipSpace()
      requires Valid()
      modifies this`pos
      ensures Valid() && pos == SkipWs(json, old(pos))
    {
      pos := ScanWs(json, pos);
    }

    /** The characters from s on up to the closing quote: escapes are decoded for their validity alone. */
    method ScanString(s: nat) returns (r: Option<nat>, escaped: bool)
      requires s <= |json|
      ensures r == QuoteAt(json, s)
      ensures r.Some? ==> escaped == HasEscape(json, s, r.value)
    {
      hide QuoteAt, HasEscape, DecodeEscape, SpecialAt;
      var x := s;
      escaped := false;
      NoneYet(json, s);
      while true
        invariant s <= x <= |json| && QuoteAt(json, x) == QuoteAt(json, s)
        invariant escaped == HasEscape(json, s, x)
        decreases |json| - x
      {
        ghost var at := x;
        x := ScanStringSpecial(json, x);
        QuoteUnfolds(json, at);
        PlainHasNoEscape(json, s, at, x);
        if x >= |json| { return None, escaped; }
        if json[x] == QUOTE { return Some(x), escaped; }
        if json[x] == BACKSLASH {
          var e := DecodeEscape(json, x, |json|);
          if e.BadEscape? { return None, escaped; }
          escaped := true;
          EscapeSeen(json, s, x, x + e.used);
          x := x + e.used;
          continue;
        }
        return None, escaped;
      }
    }

    static lemma NoneYet(inp: Bytes, s: nat)
      requires s <= |inp|
      ensures !HasEscape(inp, s, s)
    {
    }

    static lemma EscapeSeen(inp: Bytes, s: nat, x: nat, e: nat)
      requires s <= x < e <= |inp| && inp[x] == BACKSLASH
      ensures HasEscape(inp, s, e)
    {
    }

    static lemma PlainHasNoEscape(inp: Bytes, s: nat, at: nat, x: nat)
      requires s <= at <= |inp| && x == SpecialAt(inp, at)
      ensures at <= x <= |inp| && HasEscape(inp, s, x) == HasEscape(inp, s, at)
    {
      SpecialFacts(inp, at);
    }

    static lemma QuoteUnfolds(inp: Bytes, i: nat)
      requires i <= |inp|
      ensures QuoteAt(inp, i) == (
                var j := SpecialAt(inp, i);
                if j >= |inp| then None
                else if inp[j] == QUOTE then Some(j)
                else if inp[j] == BACKSLASH then
                  var e := DecodeEscape(inp, j, |inp|);
                  if e.BadEscape? then None else QuoteAt(inp, j + e.used)
                else None)
    {
      hide DecodeEscape, SpecialAt;
    }

    method StringTok() returns (ok: bool)
      requires Valid() && pos < |json|
      modifies this`tokens, this`count, this`pos, tokens
      ensures Valid() && Kept()
      ensures var spec := StringToken(json, old(pos) + 1, old(count));
              if spec.Fail? then !ok else Wrote(ok, old(Room()), old(Toks()), Toks(), [spec.value], pos, spec.pos)
    {
      hide QuoteAt, InvalidAt, HasEscape;
      var s := pos + 1;
      var r, escaped := ScanString(s);
      if r.None? { return false; }
      var bad := Utf8InvalidAt(json, s, r.value);
      if bad != r.value { return false; }
      ok := Emit(ViewSpec.StringTok, s, r.value);
      if ok {
        tokens[count - 1] := tokens[count - 1].(escaped := escaped);
        pos := r.value + 1;
      }
    }

    method LiteralTok(word: Bytes, kind: Kind) returns (ok: bool)
      requires Valid() && word != []
      modifies this`tokens, this`count, this`pos, tokens
      ensures Valid() && Kept()
      ensures var spec := WordTokens(json, old(pos), word, kind, old(count));
              if spec.Fail? then !ok else Wrote(ok, old(Room()), old(Toks()), Toks(), spec.value, pos, spec.pos)
    {
      if |json| - pos < |word| || json[pos..pos + |word|] != word { return false; }
      ok := Emit(kind, pos, pos + |word|);
      if ok { pos := pos + |word|; }
    }

    method ValueTok() returns (ok: bool)
      requires Valid()
      modifies this`tokens, this`count, this`pos, this`depth, tokens
      ensures Valid() && Kept() && (ok ==> depth == old(depth))
      ensures var spec := ValueTokens(json, old(pos), old(depth), maxDepth, old(count));
              if spec.Fail? then !ok else Wrote(ok, old(Room()), old(Toks()), Toks(), spec.value, pos, spec.pos)
      decreases |json| - pos, 1
    {
      hide SkipWs, ContainerTokens, StringToken, WordTokens, ScanNumber;
      SkipSpace();
      if pos >= |json| { return false; }
      var c := json[pos];
      if c == OPEN_BRACE {
        ok := ContainerTok(true);
      } else if c == OPEN_BRACKET {
        ok := ContainerTok(false);
      } else if c == QUOTE {
        ok := StringTok();
      } else if c == LOWER_T {
        ok := LiteralTok(TRUE_WORD, TrueTok);
      } else if c == LOWER_F {
        ok := LiteralTok(FALSE_WORD, FalseTok);
      } else if c == LOWER_N {
        ok := LiteralTok(NULL_WORD, NullTok);
      } else {
        var e := ScanNumberToken(json, pos, |json|);
        if e.None? { return false; }
        ok := Emit(NumberTok, pos, e.value);
        if ok { pos := e.value; }
      }
    }

    /** In an object, the next key and its colon; in an array, nothing. */
    method KeyTok(isObject: bool) returns (ok: bool)
      requires Valid()
      modifies this`tokens, this`count, this`pos, tokens
      ensures Valid() && Kept()
      ensures var spec := KeyTokens(json, old(pos), isObject, old(count));
              if spec.Fail? then !ok else Wrote(ok, old(Room()), old(Toks()), Toks(), spec.value, pos, spec.pos)
    {
      hide SkipWs, StringToken;
      if !isObject { return true; }
      SkipSpace();
      if pos >= |json| || json[pos] != QUOTE { return false; }
      ok := StringTok();
      if !ok { return false; }
      SkipSpace();
      if pos >= |json| || json[pos] != COLON { return false; }
      pos := pos + 1;
    }

    method ContainerTok(isObject: bool) returns (ok: bool)
      requires Valid() && pos < |json|
      modifies this`tokens, this`count, this`pos, this`depth, tokens
      ensures Valid() && Kept() && (ok ==> depth == old(depth))
      ensures var spec := ContainerTokens(json, old(pos), isObject, old(depth), maxDepth, old(count));
              if spec.Fail? then !ok else Wrote(ok, old(Room()), old(Toks()), Toks(), spec.value, pos, spec.pos)
      decreases |json| - pos, 0
    {
      hide SkipWs, ElementTokens, ContainerTokens, Closing;
      var start, idx := pos, count;
      ghost var before := Toks();
      ContainerUnfolds(json, pos, isObject, depth, maxDepth, count);
      depth := depth + 1;
      if depth > maxDepth { return false; }
      ok := Emit(if isObject then ObjectTok else ArrayTok, start, start);
      if !ok { return false; }
      pos := pos + 1;
      SkipSpace();
      var size := 0;
      ghost var children: seq<Tok> := [];
      ghost var x := Single(if isObject then ObjectTok else ArrayTok, start, start, idx);
      if pos < |json| && json[pos] == Closing(isObject) {
        pos := pos + 1;
        NoTokens(Toks());
      } else {
        ghost var e := ElementTokens(json, pos, isObject, depth, maxDepth, count);
        ok, size := ElementToks(isObject);
        if !ok { return false; }
        children := e.value.toks;
      }
      hide Single;
      PatchedFirst(before, x, children, x.(end := pos, size := size, next := count));
      Patch(idx, pos, size);
      depth := depth - 1;
    }

    /** Completes the token of a container once its children are written. */
    method Patch(idx: nat, end: nat, size: nat)
      requires Valid() && idx < count
      modifies tokens
      ensures Valid() && Toks() == old(Toks())[idx := old(tokens[idx]).(end := end, size := size, next := count)]
    {
      ghost var was := tokens[..count];
      tokens[idx] := tokens[idx].(end := end, size := size, next := count);
      assert tokens[..count] == was[idx := tokens[idx]];
    }

    static lemma PatchedFirst(a: seq<Tok>, x: Tok, children: seq<Tok>, y: Tok)
      ensures (a + [x] + children)[|a| := y] == a + ([y] + children)
      ensures (a + [x] + children)[|a|] == x && [y] + [] == [y]
    {
    }

    /** The items or members up to and past the closing bracket. */
    method ElementToks(isObject: bool) returns (ok: bool, size: nat)
      requires Valid()
      modifies this`tokens, this`count, this`pos, this`depth, tokens
      ensures Valid() && Kept() && (ok ==> depth == old(depth))
      ensures var spec := ElementTokens(json, old(pos), isObject, old(depth), maxDepth, old(count));
              if spec.Fail? then !ok
              else Wrote(ok, old(Room()), old(Toks()), Toks(), spec.value.toks, pos, spec.pos)
                   && (ok ==> size == spec.value.size)
      decreases |json| - pos, 2
    {
      hide ElementTokens, ValueTokens, KeyTokens, SkipWs, Joined, Closing;
      size := 0;
      ghost var goal := ElementTokens(json, pos, isObject, depth, maxDepth, count);
      ghost var done: seq<Tok> := [];
      JoinedNothing(goal);
      NoTokens(Toks());
      while true
        invariant Valid() && Kept() && depth == old(depth) && count == old(count) + |done| && pos >= old(pos)
        invariant Toks() == old(Toks()) + done
        invariant goal == Joined(done, size, ElementTokens(json, pos, isObject, depth, maxDepth, count))
        decreases |json| - pos
      {
        ghost var k := KeyTokens(json, pos, isObject, count);
        ghost var v := if k.Ok? then ValueTokens(json, k.pos, depth, maxDepth, count + |k.value|) else Fail;
        ElementUnfolds(json, pos, isObject, depth, maxDepth, count, k, v);
        JoinedLength(done, size, ElementTokens(json, pos, isObject, depth, maxDepth, count));
        ghost var before := Toks();
        ok := KeyTok(isObject);
        if !ok { return false, size; }
        ok := ValueTok();
        if !ok { return false, size; }
        Appended(before, k.value, v.value, Toks());
        ghost var more := k.value + v.value;
        SkipSpace();
        if pos >= |json| { return false, size; }
        if json[pos] == COMMA {
          pos := pos + 1;
          JoinedTwice(done, size, more, ElementTokens(json, pos, isObject, depth, maxDepth, count));
          Grows(old(Toks()), done, more);
          done := done + more;
          size := size + 1;
          continue;
        }
        if json[pos] == Closing(isObject) {
          pos := pos + 1;
          size := size + 1;
          Grows(old(Toks()), done, more);
          return true, size;
        }
        return false, size;
      }
    }

    static lemma NoTokens(t: seq<Tok>)
      ensures t + [] == t
    {
    }

    static lemma Appended(a: seq<Tok>, k: seq<Tok>, v: seq<Tok>, now: seq<Tok>)
      requires now == a + k + v
      ensures now == a + (k + v) && |k + v| == |k| + |v|
    {
    }

    static lemma Grows(a: seq<Tok>, done: seq<Tok>, more: seq<Tok>)
      ensures a + done + more == a + (done + more) && |done + more| == |done| + |more|
    {
    }
  }
}
