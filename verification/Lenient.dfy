/** What the strict parser asks of a structurally valid text: that every string in it reads. */
module Encoded {
  import opened Bytes
  import opened Scan
  import opened ParserSpec
  import opened Structure
  import RepairSpec
  import RepairAccepts

  /** Every string from position i on, i being outside of strings, is valid UTF-8 with paired surrogates. */
  predicate StringsRead(inp: Bytes, i: nat)
    decreases |inp| - i
  {
    i < |inp| ==>
      if inp[i] == QUOTE
      then ReadString(inp, i + 1).Ok? && StringsRead(inp, ReadString(inp, i + 1).pos)
      else StringsRead(inp, i + 1)
  }

  lemma {:induction false} PlainReads(inp: Bytes, i: nat, e: nat)
    requires i <= e <= |inp| && forall k :: i <= k < e ==> inp[k] != QUOTE
    ensures StringsRead(inp, i) == StringsRead(inp, e)
    decreases e - i
  {
    hide ReadString;
    if i < e { PlainReads(inp, i + 1, e); }
  }

  lemma {:induction false} SpaceReads(inp: Bytes, i: nat)
    requires i <= |inp|
    ensures StringsRead(inp, i) == StringsRead(inp, SkipWs(inp, i))
    decreases |inp| - i
  {
    hide ReadString;
    if i < |inp| && IsWs(inp[i]) { SpaceReads(inp, i + 1); }
  }

  lemma StringReads(inp: Bytes, i: nat)
    requires i < |inp| && inp[i] == QUOTE && StringEnd(inp, i + 1).Some?
    ensures StringsRead(inp, i)
            <==> ReadString(inp, i + 1).Ok? && StringsRead(inp, StringEnd(inp, i + 1).value)
    ensures ReadString(inp, i + 1).Ok? ==> ReadString(inp, i + 1).pos == StringEnd(inp, i + 1).value
  {
    hide ReadString, StringEnd;
    if ReadString(inp, i + 1).Ok? { StringsEndAlike(inp, i + 1); }
  }

  lemma WordReads(inp: Bytes, i: nat, word: Bytes)
    requires word == TRUE_WORD || word == FALSE_WORD || word == NULL_WORD
    requires i <= |inp| && WordSpan(inp, i, word).Some?
    ensures StringsRead(inp, i) == StringsRead(inp, i + |word|)
  {
    forall k | i <= k < i + |word| ensures inp[k] != QUOTE {
      assert inp[k] == inp[i..i + |word|][k - i];
    }
    PlainReads(inp, i, i + |word|);
  }

  lemma NumberReads(inp: Bytes, i: nat)
    requires i <= |inp| && ScanNumber(inp, i, |inp|).Some?
    ensures StringsRead(inp, i) == StringsRead(inp, ScanNumber(inp, i, |inp|).value)
  {
    hide ScanNumber;
    RepairAccepts.NumberRuns(inp, i);
    var e := ScanNumber(inp, i, |inp|).value;
    forall k | i <= k < e ensures inp[k] != QUOTE { RunIsNoQuote(inp[k]); }
    PlainReads(inp, i, e);
  }

  lemma RunIsNoQuote(c: byte)
    requires RepairSpec.IsNumberRun(c)
    ensures c != QUOTE
  {
  }

  lemma AtomReads(inp: Bytes, j: nat, depth: nat, max: nat)
    requires j < |inp| && !IsWs(inp[j]) && inp[j] != OPEN_BRACE && inp[j] != OPEN_BRACKET && AtomEnd(inp, j).Some?
    ensures StringsRead(inp, j) <==> ReadValue(inp, j, depth, max).Ok? && StringsRead(inp, AtomEnd(inp, j).value)
  {
    hide ReadString, StringEnd, ScanNumber, StringsRead, NumberValue;
    assert SkipWs(inp, j) == j;
    var c := inp[j];
    if c == QUOTE {
      StringReads(inp, j);
    } else if c == LOWER_T {
      WordReads(inp, j, TRUE_WORD);
    } else if c == LOWER_F {
      WordReads(inp, j, FALSE_WORD);
    } else if c == LOWER_N {
      WordReads(inp, j, NULL_WORD);
    } else {
      NumberReads(inp, j);
    }
  }

  /** A structurally valid value reads exactly if its strings do. */
  lemma {:induction false} ValueReads(inp: Bytes, i: nat, depth: nat, max: nat)
    requires i <= |inp| && ValueEnd(inp, i, depth, max).Some?
    ensures StringsRead(inp, i)
            <==> ReadValue(inp, i, depth, max).Ok? && StringsRead(inp, ValueEnd(inp, i, depth, max).value)
    decreases |inp| - i, 1
  {
    hide *;
    SpaceReads(inp, i);
    var j := ValueStart(inp, i, depth, max);
    if inp[j] == OPEN_BRACE {
      ObjectReads(inp, j, depth, max);
    } else if inp[j] == OPEN_BRACKET {
      ArrayReads(inp, j, depth, max);
    } else {
      AtomReads(inp, j, depth, max);
    }
  }

  lemma ValueStart(inp: Bytes, i: nat, depth: nat, max: nat) returns (j: nat)
    requires i <= |inp| && ValueEnd(inp, i, depth, max).Some?
    ensures i <= j < |inp| && j == SkipWs(inp, i) && !IsWs(inp[j])
    ensures ReadValue(inp, i, depth, max) == ReadValue(inp, j, depth, max)
    ensures ValueEnd(inp, i, depth, max)
         == if inp[j] == OPEN_BRACE then ObjectEnd(inp, j, depth, max)
            else if inp[j] == OPEN_BRACKET then ArrayEnd(inp, j, depth, max) else AtomEnd(inp, j)
  {
    hide ReadObject, ReadArray, ReadString, ReadWord, ReadNumber, ObjectEnd, ArrayEnd, AtomEnd;
    j := SkipWs(inp, i);
    assert SkipWs(inp, j) == j;
  }

  lemma {:induction false} ArrayReads(inp: Bytes, j: nat, depth: nat, max: nat)
    requires j < |inp| && inp[j] == OPEN_BRACKET && ArrayEnd(inp, j, depth, max).Some?
    ensures StringsRead(inp, j)
            <==> ReadValue(inp, j, depth, max).Ok? && StringsRead(inp, ArrayEnd(inp, j, depth, max).value)
    decreases |inp| - j, 0
  {
    hide ReadItems, ItemsEnd, ReadString;
    assert SkipWs(inp, j) == j;
    var k := SkipWs(inp, j + 1);
    SpaceReads(inp, j + 1);
    if !(k < |inp| && inp[k] == CLOSE_BRACKET) { ItemsReadAll(inp, k, depth + 1, max); }
  }

  lemma {:induction false} ObjectReads(inp: Bytes, j: nat, depth: nat, max: nat)
    requires j < |inp| && inp[j] == OPEN_BRACE && ObjectEnd(inp, j, depth, max).Some?
    ensures StringsRead(inp, j)
            <==> ReadValue(inp, j, depth, max).Ok? && StringsRead(inp, ObjectEnd(inp, j, depth, max).value)
    decreases |inp| - j, 0
  {
    hide ReadMembers, MembersEnd, ReadString;
    assert SkipWs(inp, j) == j;
    var k := SkipWs(inp, j + 1);
    SpaceReads(inp, j + 1);
    if !(k < |inp| && inp[k] == CLOSE_BRACE) { MembersReadAll(inp, k, depth + 1, max); }
  }

  /** The separator or bracket after a value. */
  lemma AfterReads(inp: Bytes, e: nat)
    requires e <= |inp| && SkipWs(inp, e) < |inp| && inp[SkipWs(inp, e)] != QUOTE
    ensures StringsRead(inp, e) == StringsRead(inp, SkipWs(inp, e) + 1)
  {
    hide ReadString;
    SpaceReads(inp, e);
  }

  lemma {:induction false} ItemsReadAll(inp: Bytes, i: nat, depth: nat, max: nat)
    requires i <= |inp| && ItemsEnd(inp, i, depth, max).Some?
    ensures StringsRead(inp, i)
            <==> ReadItems(inp, i, depth, max).Ok? && StringsRead(inp, ItemsEnd(inp, i, depth, max).value)
    decreases |inp| - i, 2
  {
    hide ReadValue, ValueEnd, SkipWs, StringsRead;
    ValueReads(inp, i, depth, max);
    if ReadValue(inp, i, depth, max).Ok? { ValuesEndAlike(inp, i, depth, max); }
    var e := ValueEnd(inp, i, depth, max).value;
    var j := SkipWs(inp, e);
    AfterReads(inp, e);
    if inp[j] == COMMA { ItemsReadAll(inp, j + 1, depth, max); }
  }

  lemma KeyReads(inp: Bytes, i: nat)
    requires i <= |inp| && KeyEnd(inp, i).Some?
    ensures StringsRead(inp, i) <==> ReadKey(inp, i).Ok? && StringsRead(inp, KeyEnd(inp, i).value)
    ensures ReadKey(inp, i).Ok? ==> ReadKey(inp, i).pos == KeyEnd(inp, i).value
  {
    hide ReadString, StringEnd, SkipWs, StringsRead;
    SpaceReads(inp, i);
    var j := SkipWs(inp, i);
    StringReads(inp, j);
    AfterReads(inp, StringEnd(inp, j + 1).value);
  }

  lemma {:induction false} MembersReadAll(inp: Bytes, i: nat, depth: nat, max: nat)
    requires i <= |inp| && MembersEnd(inp, i, depth, max).Some?
    ensures StringsRead(inp, i)
            <==> ReadMembers(inp, i, depth, max).Ok? && StringsRead(inp, MembersEnd(inp, i, depth, max).value)
    decreases |inp| - i, 2
  {
    hide ReadValue, ValueEnd, SkipWs, StringsRead, ReadKey, KeyEnd;
    KeyReads(inp, i);
    var k := KeyEnd(inp, i).value;
    ValueReads(inp, k, depth, max);
    if ReadValue(inp, k, depth, max).Ok? { ValuesEndAlike(inp, k, depth, max); }
    var e := ValueEnd(inp, k, depth, max).value;
    var j := SkipWs(inp, e);
    AfterReads(inp, e);
    if inp[j] == COMMA { MembersReadAll(inp, j + 1, depth, max); }
  }

  lemma NoBomInValid(inp: Bytes, max: nat)
    requires StructurallyValid(inp, max)
    ensures BomLength(inp) == 0
  {
    hide ObjectEnd, ArrayEnd, StringEnd, WordSpan, ScanNumber;
    assert |inp| >= 3 ==> inp[..3][0] == inp[0];
  }

  /** Strictly valid is structurally valid with strings that read. */
  lemma StrictIsEncoded(inp: Bytes, max: nat)
    requires BomLength(inp) == 0
    ensures ReadDocument(inp, max).Some? <==> StructurallyValid(inp, max) && StringsRead(inp, 0)
  {
    hide ReadValue, ValueEnd, StringsRead;
    if ReadDocument(inp, max).Some? { StrictIsStructural(inp, max); }
    if StructurallyValid(inp, max) {
      ValueReads(inp, 0, 0, max);
      var e := ValueEnd(inp, 0, 0, max).value;
      SpaceReads(inp, e);
      NothingLeft(inp);
      if ReadValue(inp, 0, 0, max).Ok? { ValuesEndAlike(inp, 0, 0, max); }
    }
  }

  lemma NothingLeft(inp: Bytes)
    ensures StringsRead(inp, |inp|)
  {
  }
}

/** The lenient parse: strict if possible, otherwise strict on the repaired text. */
module Lenient {
  import opened Bytes
  import opened Options
  import opened JsonValue
  import opened ParserSpec
  import opened Structure
  import opened RepairSpec
  import opened RepairShape
  import opened RepairValid
  import opened RepairCut
  import opened RepairCap
  import opened Encoded
  import Parser
  import Repair

  function LenientDocument(inp: Bytes): Option<Json>
  {
    var strict := ReadDocument(inp, MAX_DEPTH);
    var fixed := RepairSpec.Repair(inp, MAX_DEPTH).text;
    if strict.Some? || fixed.None? then strict else ReadDocument(fixed.value, MAX_DEPTH)
  }

  /** What the strict parser accepts is accepted with the same tree. */
  lemma StrictComesFirst(inp: Bytes)
    ensures ReadDocument(inp, MAX_DEPTH).Some? ==> LenientDocument(inp) == ReadDocument(inp, MAX_DEPTH)
  {
  }

  /** No repaired text begins with a byte order mark. */
  lemma {:induction false} ParentsBegin(os: seq<Open>)
    requires os != []
    ensures Parents(os) != [] && (Parents(os)[0] == OPEN_BRACKET || Parents(os)[0] == OPEN_BRACE)
  {
    var n := |os| - 1;
    if n > 0 { ParentsBegin(os[..n]); } else { assert Parents(os[..n]) == []; }
  }

  lemma RepairedHasNoBom(inp: Bytes, max: nat)
    requires RepairSpec.Repair(inp, max).text.Some?
    ensures BomLength(RepairSpec.Repair(inp, max).text.value) == 0
  {
    hide Start, Run, CloseAll, StructurallyValid, Matches, Parents;
    var t := RepairSpec.Repair(inp, max).text.value;
    if CutAfterComma(Run(inp, Start(inp), max)) {
      StartMatches(inp, max);
      var s := RunShape(inp, Start(inp), Shape([], None), max);
      var c := Run(inp, Start(inp), max);
      var w := OnlyBrackets(Fix(c, Unclosed));
      ParentsBegin(s.opens);
      assert t[0] == c.out[0];
      assert |t| >= 3 ==> t[..3][0] == t[0];
    } else {
      RepairIsValid(inp, max);
      NoBomInValid(t, max);
    }
  }

  /** Otherwise a text is accepted exactly if it has a repair that the depth cap spares and whose strings read. */
  lemma LenientAcceptsRepaired(inp: Bytes)
    requires ReadDocument(inp, MAX_DEPTH).None?
    ensures LenientDocument(inp).Some?
            <==> var fixed := RepairSpec.Repair(inp, MAX_DEPTH).text;
                 fixed.Some? && !MeetsCap(inp, Start(inp), MAX_DEPTH) && StringsRead(fixed.value, 0)
  {
    hide ReadDocument, Start, Run, MeetsCap, StructurallyValid, StringsRead, RepairSpec.Repair, BomLength;
    var fixed := RepairSpec.Repair(inp, MAX_DEPTH).text;
    if fixed.Some? {
      RepairedHasNoBom(inp, MAX_DEPTH);
      StrictIsEncoded(fixed.value, MAX_DEPTH);
      ValidUnlessCapped(inp, MAX_DEPTH);
    }
  }

  /** The report is empty when the text needed no repair. */
  method ParseLenient(text: Bytes) returns (root: Option<Json>, fixes: nat, kinds: set<Kind>)
    ensures root == LenientDocument(text)
    ensures ReadDocument(text, MAX_DEPTH).Some? ==> fixes == 0 && kinds == {}
    ensures ReadDocument(text, MAX_DEPTH).None? ==>
              fixes == RepairSpec.Repair(text, MAX_DEPTH).fixes && kinds == RepairSpec.Repair(text, MAX_DEPTH).kinds
  {
    var strict := Parser.Parse(text, MAX_DEPTH);
    if strict.Some? { return strict, 0, {}; }
    var fixed: Option<Bytes>;
    fixed, fixes, kinds := Repair.RepairText(text);
    if fixed.None? { return strict, fixes, kinds; }
    root := Parser.Parse(fixed.value, MAX_DEPTH);
  }
}
