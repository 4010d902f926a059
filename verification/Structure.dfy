/** Structurally valid JSON text: brackets, commas, colons, keys, numbers, quoting and escapes, whatever the encoding. */
module Structure {
  import opened Bytes
  import opened Options
  import opened Scan
  import opened JsonValue
  import opened ParserSpec

  /** Past the closing quote of the string whose characters start at i. */
  function StringEnd(inp: Bytes, i: nat): (r: Option<nat>)
    requires i <= |inp|
    ensures r.Some? ==> i < r.value <= |inp|
    decreases |inp| - i
  {
    if i >= |inp| then None
    else if inp[i] == QUOTE then Some(i + 1)
    else if inp[i] == BACKSLASH then
      if i + 1 < |inp| && SimpleEscape(inp[i + 1]).Some? then StringEnd(inp, i + 2)
      else if i + 6 <= |inp| && inp[i + 1] == LOWER_U && Hex4(inp, i + 2) >= 0 then StringEnd(inp, i + 6)
      else None
    else if inp[i] < 0x20 then None
    else StringEnd(inp, i + 1)
  }

  function WordSpan(inp: Bytes, i: nat, word: Bytes): (r: Option<nat>)
    requires i <= |inp| && word != []
    ensures r.Some? ==> i < r.value == i + |word| <= |inp|
  {
    if i + |word| <= |inp| && inp[i..i + |word|] == word then Some(i + |word|) else None
  }

  /** Past the value at i, inside `depth` open containers. */
  function ValueEnd(inp: Bytes, i: nat, depth: nat, max: nat): (r: Option<nat>)
    requires i <= |inp|
    ensures r.Some? ==> i < r.value <= |inp|
    decreases |inp| - i, 1
  {
    var j := SkipWs(inp, i);
    if j >= |inp| then None else
    var c := inp[j];
    if c == OPEN_BRACE then ObjectEnd(inp, j, depth, max)
    else if c == OPEN_BRACKET then ArrayEnd(inp, j, depth, max)
    else AtomEnd(inp, j)
  }

  /** Past the string, word or number at i. */
  function AtomEnd(inp: Bytes, i: nat): (r: Option<nat>)
    requires i < |inp|
    ensures r.Some? ==> i < r.value <= |inp|
  {
    var c := inp[i];
    if c == QUOTE then StringEnd(inp, i + 1)
    else if c == LOWER_T then WordSpan(inp, i, TRUE_WORD)
    else if c == LOWER_F then WordSpan(inp, i, FALSE_WORD)
    else if c == LOWER_N then WordSpan(inp, i, NULL_WORD)
    else if c == MINUS || IsDigit(c) then ScanNumber(inp, i, |inp|)
    else None
  }

  function ArrayEnd(inp: Bytes, i: nat, depth: nat, max: nat): (r: Option<nat>)
    requires i < |inp|
    ensures r.Some? ==> i < r.value <= |inp|
    decreases |inp| - i, 0
  {
    if depth + 1 > max then None else
    var j := SkipWs(inp, i + 1);
    if j < |inp| && inp[j] == CLOSE_BRACKET then Some(j + 1) else ItemsEnd(inp, j, depth + 1, max)
  }

  function ItemsEnd(inp: Bytes, i: nat, depth: nat, max: nat): (r: Option<nat>)
    requires i <= |inp|
    ensures r.Some? ==> i < r.value <= |inp|
    decreases |inp| - i, 2
  {
    var v := ValueEnd(inp, i, depth, max);
    if v.None? then None else
    var j := SkipWs(inp, v.value);
    if j >= |inp| then None
    else if inp[j] == COMMA then ItemsEnd(inp, j + 1, depth, max)
    else if inp[j] == CLOSE_BRACKET then Some(j + 1)
    else None
  }

  function ObjectEnd(inp: Bytes, i: nat, depth: nat, max: nat): (r: Option<nat>)
    requires i < |inp|
    ensures r.Some? ==> i < r.value <= |inp|
    decreases |inp| - i, 0
  {
    if depth + 1 > max then None else
    var j := SkipWs(inp, i + 1);
    if j < |inp| && inp[j] == CLOSE_BRACE then Some(j + 1) else MembersEnd(inp, j, depth + 1, max)
  }

  /** Past a key and its colon. */
  function KeyEnd(inp: Bytes, i: nat): (r: Option<nat>)
    requires i <= |inp|
    ensures r.Some? ==> i < r.value <= |inp|
  {
    var j := SkipWs(inp, i);
    if j >= |inp| || inp[j] != QUOTE then None else
    var key := StringEnd(inp, j + 1);
    if key.None? then None else
    var k := SkipWs(inp, key.value);
    if k >= |inp| || inp[k] != COLON then None else Some(k + 1)
  }

  function MembersEnd(inp: Bytes, i: nat, depth: nat, max: nat): (r: Option<nat>)
    requires i <= |inp|
    ensures r.Some? ==> i < r.value <= |inp|
    decreases |inp| - i, 2
  {
    var key := KeyEnd(inp, i);
    if key.None? then None else
    var v := ValueEnd(inp, key.value, depth, max);
    if v.None? then None else
    var j := SkipWs(inp, v.value);
    if j >= |inp| then None
    else if inp[j] == COMMA then MembersEnd(inp, j + 1, depth, max)
    else if inp[j] == CLOSE_BRACE then Some(j + 1)
    else None
  }

  /** The text is one structurally valid value, with whitespace around it, nested at most `max` deep. */
  predicate StructurallyValid(inp: Bytes, max: nat)
  {
    var v := ValueEnd(inp, 0, 0, max);
    v.Some? && SkipWs(inp, v.value) == |inp|
  }

  // --- What the strict parser accepts is structurally valid ---

  lemma {:induction false} StringsEndAlike(inp: Bytes, i: nat)
    requires i <= |inp| && ReadString(inp, i).Ok?
    ensures StringEnd(inp, i) == Some(ReadString(inp, i).pos)
    decreases |inp| - i
  {
    hide Utf8Length, DecodeEscape, StringEnd;
    if inp[i] == QUOTE {
      EndsAtQuote(inp, i);
    } else if inp[i] == BACKSLASH {
      var e := DecodeEscape(inp, i, |inp|);
      StringsEndAlike(inp, i + e.used);
      PastEscape(inp, i);
    } else {
      var len := Utf8Length(inp, i, |inp|);
      StringsEndAlike(inp, i + len);
      PastPlain(inp, i, i + len);
    }
  }

  lemma EndsAtQuote(inp: Bytes, i: nat)
    requires i < |inp| && inp[i] == QUOTE
    ensures StringEnd(inp, i) == Some(i + 1)
  {
  }

  lemma {:induction false} PastPlain(inp: Bytes, i: nat, e: nat)
    requires i <= e <= |inp| && forall k :: i <= k < e ==> inp[k] >= 0x20 && inp[k] != QUOTE && inp[k] != BACKSLASH
    ensures StringEnd(inp, i) == StringEnd(inp, e)
    decreases e - i
  {
    if i < e { PastPlain(inp, i + 1, e); }
  }

  lemma PastEscape(inp: Bytes, i: nat)
    requires i < |inp| && inp[i] == BACKSLASH && DecodeEscape(inp, i, |inp|).Escaped?
    ensures StringEnd(inp, i) == StringEnd(inp, i + DecodeEscape(inp, i, |inp|).used)
  {
    hide Utf8Encode, Hex4;
    assert SimpleEscape(LOWER_U).None?;
    if inp[i + 1] == LOWER_U {
      assert StringEnd(inp, i) == StringEnd(inp, i + 6);
      if DecodeEscape(inp, i, |inp|).used == 12 {
        assert StringEnd(inp, i + 6) == StringEnd(inp, i + 12);
      }
    }
  }

  lemma {:induction false} ValuesEndAlike(inp: Bytes, i: nat, depth: nat, max: nat)
    requires i <= |inp| && ReadValue(inp, i, depth, max).Ok?
    ensures ValueEnd(inp, i, depth, max) == Some(ReadValue(inp, i, depth, max).pos)
    decreases |inp| - i, 1
  {
    hide ReadString, StringEnd, ReadItems, ItemsEnd, ReadMembers, MembersEnd, ScanNumber, NumberValue, SkipWs;
    var j := SkipWs(inp, i);
    var c := inp[j];
    if c == QUOTE {
      StringsEndAlike(inp, j + 1);
    } else if c == OPEN_BRACKET {
      var k := SkipWs(inp, j + 1);
      if !(k < |inp| && inp[k] == CLOSE_BRACKET) { ItemsEndAlike(inp, k, depth + 1, max); }
    } else if c == OPEN_BRACE {
      var k := SkipWs(inp, j + 1);
      if !(k < |inp| && inp[k] == CLOSE_BRACE) { MembersEndAlike(inp, k, depth + 1, max); }
    }
  }

  lemma {:induction false} ItemsEndAlike(inp: Bytes, i: nat, depth: nat, max: nat)
    requires i <= |inp| && ReadItems(inp, i, depth, max).Ok?
    ensures ItemsEnd(inp, i, depth, max) == Some(ReadItems(inp, i, depth, max).pos)
    decreases |inp| - i, 2
  {
    hide ReadValue, ValueEnd, SkipWs;
    ValuesEndAlike(inp, i, depth, max);
    var j := SkipWs(inp, ReadValue(inp, i, depth, max).pos);
    if inp[j] == COMMA { ItemsEndAlike(inp, j + 1, depth, max); }
  }

  lemma {:induction false} MembersEndAlike(inp: Bytes, i: nat, depth: nat, max: nat)
    requires i <= |inp| && ReadMembers(inp, i, depth, max).Ok?
    ensures MembersEnd(inp, i, depth, max) == Some(ReadMembers(inp, i, depth, max).pos)
    decreases |inp| - i, 2
  {
    hide ReadValue, ValueEnd, SkipWs, ReadKey, KeyEnd;
    KeysEndAlike(inp, i);
    ValuesEndAlike(inp, ReadKey(inp, i).pos, depth, max);
    var j := SkipWs(inp, ReadValue(inp, ReadKey(inp, i).pos, depth, max).pos);
    if inp[j] == COMMA { MembersEndAlike(inp, j + 1, depth, max); }
  }

  lemma KeysEndAlike(inp: Bytes, i: nat)
    requires i <= |inp| && ReadKey(inp, i).Ok?
    ensures KeyEnd(inp, i) == Some(ReadKey(inp, i).pos)
  {
    hide ReadString, StringEnd, SkipWs;
    StringsEndAlike(inp, SkipWs(inp, i) + 1);
  }

  /** A document the strict parser accepts is structurally valid, unless it starts with a byte order mark. */
  lemma StrictIsStructural(inp: Bytes, max: nat)
    requires ReadDocument(inp, max).Some? && BomLength(inp) == 0
    ensures StructurallyValid(inp, max)
  {
    hide ReadValue, ValueEnd;
    ValuesEndAlike(inp, 0, 0, max);
  }
}
