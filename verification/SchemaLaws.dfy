/** What the keywords of a schema accept: one declarative statement about every value, and nothing about how it is checked. */
module SchemaLaws {
  import opened Bytes
  import opened Options
  import opened JsonValue
  import opened JsonOps
  import opened Scan
  import opened Pointer
  import opened SchemaSpec

  // --- Plain keywords ---

  /** The value is of the named type. */
  predicate IsOfType(name: Bytes, v: Json, leaf: Leaf)
  {
    match v
    case Null => name == Ascii("null")
    case Bool(_) => name == Ascii("boolean")
    case Num(x) => name == Ascii("number") || (name == Ascii("integer") && leaf.isInteger(x))
    case Str(_) => name == Ascii("string")
    case Arr(_) => name == Ascii("array")
    case Obj(_) => name == Ascii("object")
  }

  ghost predicate TypeAllows(s: Json, v: Json, leaf: Leaf)
  {
    && (forall t :: Keyword(s, "type") == Some(Str(t)) ==> IsOfType(t, v, leaf))
    && (forall ts: seq<Json> :: Keyword(s, "type") == Some(Arr(ts)) ==>
          exists i :: 0 <= i < |ts| && ts[i].Str? && IsOfType(ts[i].s, v, leaf))
  }

  ghost predicate ValuesAllow(s: Json, v: Json)
  {
    && (forall xs :: Keyword(s, "enum") == Some(Arr(xs)) ==> exists i :: 0 <= i < |xs| && Equals(xs[i], v))
    && (forall x :: Keyword(s, "const") == Some(x) ==> Equals(x, v))
  }

  ghost predicate NumberAllows(s: Json, x: Number, leaf: Leaf)
  {
    && (forall m :: Keyword(s, "minimum") == Some(Num(m)) ==> !leaf.less(x, m))
    && (forall m :: Keyword(s, "maximum") == Some(Num(m)) ==> !leaf.less(m, x))
    && (forall m :: Keyword(s, "minimum") == Some(Num(m)) && Keyword(s, "exclusiveMinimum") == Some(Bool(true)) ==>
          leaf.less(m, x))
    && (forall m :: Keyword(s, "maximum") == Some(Num(m)) && Keyword(s, "exclusiveMaximum") == Some(Bool(true)) ==>
          leaf.less(x, m))
    && (forall m :: Keyword(s, "exclusiveMinimum") == Some(Num(m)) ==> leaf.less(m, x))
    && (forall m :: Keyword(s, "exclusiveMaximum") == Some(Num(m)) ==> leaf.less(x, m))
    && (forall m :: Keyword(s, "multipleOf") == Some(Num(m)) && leaf.less(Int(0), m) ==> !leaf.multipleFails(x, m))
  }

  ghost predicate CountAllows(s: Json, least: string, most: string, n: nat, leaf: Leaf)
  {
    && (forall m :: Keyword(s, least) == Some(Num(m)) ==> !leaf.less(Int(n), m))
    && (forall m :: Keyword(s, most) == Some(Num(m)) ==> !leaf.less(m, Int(n)))
  }

  /** A string is measured in characters: the bytes that do not continue one. */
  function Characters(t: Bytes): set<int> { set i | 0 <= i < |t| && !(0x80 <= t[i] <= 0xBF) }

  ghost predicate StringAllows(s: Json, t: Bytes, leaf: Leaf)
  {
    && CountAllows(s, "minLength", "maxLength", |Characters(t)|, leaf)
    && (forall f :: Keyword(s, "format") == Some(Str(f)) ==> leaf.formatOk(f, t))
  }

  // --- Keywords that hold schemas ---

  ghost predicate RefAllows(c: Ctx, s: Json, v: Json, d: nat)
    requires d <= MAX_REF_DEPTH
  {
    forall r :: Keyword(s, "$ref") == Some(Str(r)) ==>
      && r != [] && r[0] == 0x23
      && PointerGet(c.root, r[1..]).Some? && Passes(c, PointerGet(c.root, r[1..]).value, v, d)
  }

  /** The schema that `properties` has for a key. */
  function OwnSchema(s: Json, key: Bytes): Option<Json>
  {
    match Keyword(s, "properties")
    case Some(Obj(props)) => GetMember(props, key)
    case _ => None
  }

  ghost predicate ObjectAllows(c: Ctx, s: Json, ms: seq<Member>, d: nat)
    requires d <= MAX_REF_DEPTH
  {
    && (forall names: seq<Json>, i :: Keyword(s, "required") == Some(Arr(names)) && 0 <= i < |names| && names[i].Str? ==>
          exists j :: 0 <= j < |ms| && ms[j].key == names[i].s)
    && CountAllows(s, "minProperties", "maxProperties", |ms|, c.leaf)
    && (forall i :: 0 <= i < |ms| ==>
          var own, others := OwnSchema(s, ms[i].key), Keyword(s, "additionalProperties");
          if own.Some? then Passes(c, own.value, ms[i].value, d)
          else others != Some(Bool(false))
               && (others.Some? && others.value.Obj? ==> Passes(c, others.value, ms[i].value, d)))
  }

  ghost predicate ItemsAllow(c: Ctx, s: Json, items: seq<Json>)
  {
    && CountAllows(s, "minItems", "maxItems", |items|, c.leaf)
    && (Keyword(s, "uniqueItems") == Some(Bool(true)) ==>
          forall i, j :: 0 <= i < j < |items| ==> !Equals(items[i], items[j]))
  }

  ghost predicate PositionsAllow(c: Ctx, s: Json, items: seq<Json>, d: nat)
    requires d <= MAX_REF_DEPTH
  {
    && (forall k :: Keyword(s, "prefixItems") == Some(Arr(k)) ==> EachOf(c, k, items, d))
    && (forall k :: Keyword(s, "prefixItems") == None && Keyword(s, "items") == Some(Arr(k)) ==> EachOf(c, k, items, d))
    && (forall k :: Keyword(s, "items") == Some(k) && (k.Obj? || k.Bool?) ==>
          forall i :: PrefixLength(s) <= i < |items| ==> Passes(c, k, items[i], d))
  }

  ghost predicate ArrayAllows(c: Ctx, s: Json, items: seq<Json>, d: nat)
    requires d <= MAX_REF_DEPTH
  {
    && ItemsAllow(c, s, items)
    && PositionsAllow(c, s, items, d)
    && (forall k :: Keyword(s, "contains") == Some(k) ==> exists i :: 0 <= i < |items| && Passes(c, k, items[i], d))
  }

  /** Each schema accepts the item at its position, as far as there are both. */
  ghost predicate EachOf(c: Ctx, schemas: seq<Json>, items: seq<Json>, d: nat)
    requires d <= MAX_REF_DEPTH
  {
    forall i :: 0 <= i < |schemas| && i < |items| ==> Passes(c, schemas[i], items[i], d)
  }

  function PrefixLength(s: Json): nat
  {
    match Keyword(s, "prefixItems")
    case Some(Arr(k)) => |k|
    case _ => 0
  }

  ghost predicate ListsAllow(c: Ctx, s: Json, v: Json, d: nat)
    requires d <= MAX_REF_DEPTH
  {
    && (forall k, i :: Keyword(s, "allOf") == Some(Arr(k)) && 0 <= i < |k| ==> Passes(c, k[i], v, d))
    && (forall k :: Keyword(s, "anyOf") == Some(Arr(k)) ==> exists i :: 0 <= i < |k| && Passes(c, k[i], v, d))
    && (forall k :: Keyword(s, "oneOf") == Some(Arr(k)) ==> JustOne(c, k, v, d))
  }

  ghost predicate ConditionsAllow(c: Ctx, s: Json, v: Json, d: nat)
    requires d <= MAX_REF_DEPTH
  {
    && (forall k :: Keyword(s, "not") == Some(k) ==> !Passes(c, k, v, d))
    && (forall k, t :: Keyword(s, "if") == Some(k) && Passes(c, k, v, d) && Keyword(s, "then") == Some(t) ==>
          Passes(c, t, v, d))
    && (forall k, t :: Keyword(s, "if") == Some(k) && !Passes(c, k, v, d) && Keyword(s, "else") == Some(t) ==>
          Passes(c, t, v, d))
  }

  ghost predicate CombinedAllow(c: Ctx, s: Json, v: Json, d: nat)
    requires d <= MAX_REF_DEPTH
  {
    ListsAllow(c, s, v, d) && ConditionsAllow(c, s, v, d)
  }

  ghost predicate JustOne(c: Ctx, schemas: seq<Json>, v: Json, d: nat)
    requires d <= MAX_REF_DEPTH
  {
    exists i :: Only(c, schemas, v, d, i)
  }

  ghost predicate KindAllows(c: Ctx, s: Json, v: Json, d: nat)
    requires d <= MAX_REF_DEPTH
  {
    match v
    case Num(x) => NumberAllows(s, x, c.leaf)
    case Str(t) => StringAllows(s, t, c.leaf)
    case Obj(ms) => ObjectAllows(c, s, ms, d)
    case Arr(items) => ArrayAllows(c, s, items, d)
    case _ => true
  }

  // --- Each keyword's check means that ---

  lemma TypesAgree(s: Json, v: Json, leaf: Leaf)
    ensures TypeOk(s, v, leaf) <==> TypeAllows(s, v, leaf)
  {
    hide Keyword;
    forall t ensures TypeMatches(t, v, leaf) <==> IsOfType(t, v, leaf) { OneType(t, v, leaf); }
    hide TypeMatches, IsOfType;
  }

  lemma OneType(t: Bytes, v: Json, leaf: Leaf)
    ensures TypeMatches(t, v, leaf) <==> IsOfType(t, v, leaf)
  {
    assert |Ascii("null")| == 4 && |Ascii("boolean")| == 7 && |Ascii("integer")| == 7 && |Ascii("number")| == 6;
    assert |Ascii("string")| == 6 && |Ascii("array")| == 5 && |Ascii("object")| == 6;
    assert Ascii("boolean")[0] == 0x62 && Ascii("integer")[0] == 0x69;
  }

  lemma ValuesAgree(s: Json, v: Json)
    ensures EnumOk(s, v) && ConstOk(s, v) <==> ValuesAllow(s, v)
  {
    hide Keyword, Equals;
  }

  lemma NumbersAgree(s: Json, x: Number, leaf: Leaf)
    requires forall a, b :: leaf.less(a, b) ==> !leaf.less(b, a)
    ensures NumberIssues(s, x, leaf) == 0 <==> NumberAllows(s, x, leaf)
  {
    hide Keyword;
  }

  lemma CountsAgree(s: Json, least: string, most: string, n: nat, leaf: Leaf)
    ensures SizeIssues(s, least, most, n, leaf) == 0 <==> CountAllows(s, least, most, n, leaf)
  {
    hide Keyword;
  }

  lemma {:induction false} CharactersCounted(t: Bytes)
    ensures CharCount(t) == |Characters(t)|
    decreases |t|
  {
    if t != [] {
      var n := |t| - 1;
      CharactersCounted(t[..n]);
      LastCharacter(t[..n], t[n]);
      assert t == t[..n] + [t[n]];
      var more := if 0x80 <= t[n] <= 0xBF then {} else {n};
      assert Characters(t) == Characters(t[..n]) + more;
    }
  }

  lemma {:induction false} LastCharacter(front: Bytes, last: byte)
    ensures CharCount(front + [last]) == CharCount(front) + if IsContinuation(last) then 0 else 1
    decreases |front|
  {
    if front != [] {
      assert (front + [last])[1..] == front[1..] + [last];
      LastCharacter(front[1..], last);
    } else {
      assert (front + [last])[1..] == [];
    }
  }

  lemma StringsAgree(s: Json, t: Bytes, leaf: Leaf)
    ensures StringIssues(s, t, leaf) == 0 <==> StringAllows(s, t, leaf)
  {
    hide Keyword, Characters;
    CharactersCounted(t);
  }

  lemma RefsMean(c: Ctx, s: Json, v: Json, d: nat)
    requires d <= MAX_REF_DEPTH
    ensures PassesRef(c, s, v, d) <==> RefAllows(c, s, v, d)
  {
    hide Keyword, Passes;
    assert forall r: Bytes :: r == [HASH] ==> r[1..] == [];
  }

  lemma {:induction false} NamesMissing(names: seq<Json>, ms: seq<Member>)
    ensures MissingNames(names, ms) == 0
            <==> forall i :: 0 <= i < |names| && names[i].Str? ==> exists j :: 0 <= j < |ms| && ms[j].key == names[i].s
    decreases |names|
  {
    if names != [] {
      NamesMissing(names[1..], ms);
      if names[0].Str? { Present(ms, names[0].s); }
      assert forall i :: 1 <= i < |names| ==> names[i] == names[1..][i - 1];
    }
  }

  lemma Present(ms: seq<Member>, key: Bytes)
    ensures HasKey(ms, key) <==> exists j :: 0 <= j < |ms| && ms[j].key == key
  {
    if HasKey(ms, key) { assert ms[FindKey(ms, key)].key == key; }
  }

  predicate MemberAllowed(c: Ctx, s: Json, m: Member, d: nat)
    requires d <= MAX_REF_DEPTH
  {
    var own, others := OwnSchema(s, m.key), Keyword(s, "additionalProperties");
    if own.Some? then Passes(c, own.value, m.value, d)
    else others != Some(Bool(false)) && (others.Some? && others.value.Obj? ==> Passes(c, others.value, m.value, d))
  }

  lemma {:induction false} MembersMean(c: Ctx, s: Json, ms: seq<Member>, d: nat)
    requires d <= MAX_REF_DEPTH
    ensures PassesMembers(c, s, ms, d) <==> forall i :: 0 <= i < |ms| ==> MemberAllowed(c, s, ms[i], d)
    decreases |ms|
  {
    hide Keyword, Passes, PropertyRule, MemberAllowed;
    if ms != [] {
      MembersMean(c, s, ms[1..], d);
      MemberMeans(c, s, ms[0], d);
      assert forall i :: 1 <= i < |ms| ==> ms[i] == ms[1..][i - 1];
    }
  }

  lemma MemberMeans(c: Ctx, s: Json, m: Member, d: nat)
    requires d <= MAX_REF_DEPTH
    ensures (match PropertyRule(s, m.key)
             case Under(t) => Passes(c, t, m.value, d)
             case Forbidden => false
             case NoRule => true)
            <==> MemberAllowed(c, s, m, d)
  {
    hide Keyword, Passes;
  }

  lemma ObjectsMean(c: Ctx, s: Json, ms: seq<Member>, d: nat)
    requires d <= MAX_REF_DEPTH
    ensures RequiredIssues(s, ms) == 0 && SizeIssues(s, "minProperties", "maxProperties", |ms|, c.leaf) == 0
            && PassesMembers(c, s, ms, d)
            <==> ObjectAllows(c, s, ms, d)
  {
    MembersMean(c, s, ms, d);
    CountsAgree(s, "minProperties", "maxProperties", |ms|, c.leaf);
    match Keyword(s, "required")
    case Some(Arr(names)) => NamesMissing(names, ms);
    case _ =>
    hide Keyword, Passes, SizeIssues, CountAllows, PassesMembers, OwnSchema;
  }

  lemma {:induction false} PrefixMeans(c: Ctx, schemas: seq<Json>, items: seq<Json>, d: nat)
    requires d <= MAX_REF_DEPTH
    ensures PassesPrefix(c, schemas, items, d) <==> EachOf(c, schemas, items, d)
    decreases |schemas|
  {
    hide Passes;
    if schemas != [] && items != [] {
      PrefixMeans(c, schemas[1..], items[1..], d);
      assert forall i :: 1 <= i < |schemas| ==> schemas[i] == schemas[1..][i - 1];
      assert forall i :: 1 <= i < |items| ==> items[i] == items[1..][i - 1];
    }
  }

  lemma {:induction false} RestMeans(c: Ctx, s: Json, items: seq<Json>, start: nat, d: nat)
    requires d <= MAX_REF_DEPTH
    ensures PassesRest(c, s, items, start, d) <==> forall i :: start <= i < |items| ==> Passes(c, s, items[i], d)
    decreases |items| - start
  {
    hide Passes;
    if start < |items| { RestMeans(c, s, items, start + 1, d); }
  }

  lemma ArraysMean(c: Ctx, s: Json, items: seq<Json>, d: nat)
    requires d <= MAX_REF_DEPTH
    ensures ItemCountIssues(EarlyOut, s, items, c.leaf) == 0
            && PassesPrefix(c, ArrayRules(s).prefix, items, d)
            && (ArrayRules(s).rest.Some? ==> PassesRest(c, ArrayRules(s).rest.value, items, |ArrayRules(s).prefix|, d))
            && PassesContains(c, s, items, d)
            <==> ArrayAllows(c, s, items, d)
  {
    ItemCountsMean(c, s, items);
    PositionsMean(c, s, items, d);
    hide Passes, ItemCountIssues, ItemsAllow, PositionsAllow, PassesPrefix, PassesRest, ArrayRules, Keyword;
  }

  lemma ItemCountsMean(c: Ctx, s: Json, items: seq<Json>)
    ensures ItemCountIssues(EarlyOut, s, items, c.leaf) == 0 <==> ItemsAllow(c, s, items)
  {
    CountsAgree(s, "minItems", "maxItems", |items|, c.leaf);
    hide Keyword, SizeIssues, CountAllows, Equals;
  }

  lemma PositionsMean(c: Ctx, s: Json, items: seq<Json>, d: nat)
    requires d <= MAX_REF_DEPTH
    ensures PassesPrefix(c, ArrayRules(s).prefix, items, d)
            && (ArrayRules(s).rest.Some? ==> PassesRest(c, ArrayRules(s).rest.value, items, |ArrayRules(s).prefix|, d))
            <==> PositionsAllow(c, s, items, d)
  {
    var rules := ArrayRules(s);
    PrefixMeans(c, rules.prefix, items, d);
    if rules.rest.Some? { RestMeans(c, rules.rest.value, items, |rules.prefix|, d); }
    EachOfNone(c, items, d);
    hide Keyword, Passes, PassesPrefix, PassesRest, EachOf;
  }

  lemma EachOfNone(c: Ctx, items: seq<Json>, d: nat)
    requires d <= MAX_REF_DEPTH
    ensures EachOf(c, [], items, d)
  {
  }

  lemma {:induction false} AllMean(c: Ctx, schemas: seq<Json>, v: Json, d: nat)
    requires d <= MAX_REF_DEPTH
    ensures PassesAll(c, schemas, v, d) <==> forall i :: 0 <= i < |schemas| ==> Passes(c, schemas[i], v, d)
    decreases |schemas|
  {
    hide Passes;
    if schemas != [] {
      AllMean(c, schemas[1..], v, d);
      assert forall i :: 1 <= i < |schemas| ==> schemas[i] == schemas[1..][i - 1];
    }
  }

  lemma {:induction false} SomePass(c: Ctx, schemas: seq<Json>, v: Json, d: nat)
    requires d <= MAX_REF_DEPTH
    ensures Passing(c, schemas, v, d) > 0 <==> exists i :: 0 <= i < |schemas| && Passes(c, schemas[i], v, d)
    decreases |schemas|
  {
    hide Passes;
    if schemas != [] {
      SomePass(c, schemas[1..], v, d);
      assert forall i :: 1 <= i < |schemas| ==> schemas[i] == schemas[1..][i - 1];
      if i :| 0 <= i < |schemas[1..]| && Passes(c, schemas[1..][i], v, d) { assert Passes(c, schemas[i + 1], v, d); }
    }
  }

  lemma {:induction false} OnePasses(c: Ctx, schemas: seq<Json>, v: Json, d: nat)
    requires d <= MAX_REF_DEPTH
    ensures Passing(c, schemas, v, d) == 1 <==> JustOne(c, schemas, v, d)
    decreases |schemas|
  {
    hide Passes;
    if schemas != [] {
      var rest := schemas[1..];
      OnePasses(c, rest, v, d);
      SomePass(c, rest, v, d);
      assert forall i :: 1 <= i < |schemas| ==> schemas[i] == rest[i - 1];
      OneOfMore(c, schemas, v, d);
    }
  }

  /** Schema i accepts the value and no other does. */
  predicate Only(c: Ctx, schemas: seq<Json>, v: Json, d: nat, i: int)
    requires d <= MAX_REF_DEPTH
  {
    0 <= i < |schemas| && Passes(c, schemas[i], v, d)
    && forall j :: 0 <= j < |schemas| && j != i ==> !Passes(c, schemas[j], v, d)
  }

  lemma OneOfMore(c: Ctx, schemas: seq<Json>, v: Json, d: nat)
    requires d <= MAX_REF_DEPTH && schemas != []
    ensures JustOne(c, schemas, v, d)
            <==> if Passes(c, schemas[0], v, d)
                 then !exists i :: 0 <= i < |schemas[1..]| && Passes(c, schemas[1..][i], v, d)
                 else JustOne(c, schemas[1..], v, d)
  {
    hide Passes, Only;
    if Passes(c, schemas[0], v, d) {
      OnlyFirst(c, schemas, v, d);
    } else {
      if i :| Only(c, schemas, v, d, i) { OnlyLater(c, schemas, v, d, i); }
      if i :| Only(c, schemas[1..], v, d, i) { OnlyLater(c, schemas, v, d, i + 1); }
    }
  }

  lemma OnlyFirst(c: Ctx, schemas: seq<Json>, v: Json, d: nat)
    requires d <= MAX_REF_DEPTH && schemas != [] && Passes(c, schemas[0], v, d)
    ensures (exists i :: Only(c, schemas, v, d, i))
            <==> !exists i :: 0 <= i < |schemas[1..]| && Passes(c, schemas[1..][i], v, d)
  {
    hide Passes;
    var rest := schemas[1..];
    assert forall i :: 1 <= i < |schemas| ==> schemas[i] == rest[i - 1];
    if i :| 0 <= i < |rest| && Passes(c, rest[i], v, d) {
      assert Passes(c, schemas[i + 1], v, d);
    } else {
      assert Only(c, schemas, v, d, 0);
    }
  }

  lemma OnlyLater(c: Ctx, schemas: seq<Json>, v: Json, d: nat, i: int)
    requires d <= MAX_REF_DEPTH && schemas != [] && !Passes(c, schemas[0], v, d)
    ensures Only(c, schemas, v, d, i) <==> Only(c, schemas[1..], v, d, i - 1)
  {
    hide Passes;
    var rest := schemas[1..];
    assert forall j :: 1 <= j < |schemas| ==> schemas[j] == rest[j - 1];
    if Only(c, schemas, v, d, i) {
      assert i != 0;
      forall j | 0 <= j < |rest| && j != i - 1 ensures !Passes(c, rest[j], v, d) { assert schemas[j + 1] == rest[j]; }
    }
  }

  lemma CombinedMean(c: Ctx, s: Json, v: Json, d: nat)
    requires d <= MAX_REF_DEPTH
    ensures PassesAll(c, SchemaList(s, "allOf"), v, d)
            && (HasList(s, "anyOf") ==> Passing(c, SchemaList(s, "anyOf"), v, d) > 0)
            && (HasList(s, "oneOf") ==> Passing(c, SchemaList(s, "oneOf"), v, d) == 1)
            && PassesNot(c, s, v, d) && PassesIf(c, s, v, d)
            <==> CombinedAllow(c, s, v, d)
  {
    ListsMean(c, s, v, d);
    ConditionMeans(c, s, v, d);
    hide *;
  }

  lemma ListsMean(c: Ctx, s: Json, v: Json, d: nat)
    requires d <= MAX_REF_DEPTH
    ensures PassesAll(c, SchemaList(s, "allOf"), v, d)
            && (HasList(s, "anyOf") ==> Passing(c, SchemaList(s, "anyOf"), v, d) > 0)
            && (HasList(s, "oneOf") ==> Passing(c, SchemaList(s, "oneOf"), v, d) == 1)
            <==> ListsAllow(c, s, v, d)
  {
    AllMean(c, SchemaList(s, "allOf"), v, d);
    SomePass(c, SchemaList(s, "anyOf"), v, d);
    OnePasses(c, SchemaList(s, "oneOf"), v, d);
    hide Keyword, Passes, PassesAll, Passing, JustOne;
  }

  lemma ConditionMeans(c: Ctx, s: Json, v: Json, d: nat)
    requires d <= MAX_REF_DEPTH
    ensures PassesNot(c, s, v, d) && PassesIf(c, s, v, d) <==> ConditionsAllow(c, s, v, d)
    ensures CombinedAllow(c, s, v, d) <==> ListsAllow(c, s, v, d) && ConditionsAllow(c, s, v, d)
  {
    hide Keyword, Passes, ListsAllow;
  }

  /** What a schema accepts, keyword by keyword; a strict order of numbers is assumed. */
  lemma PassesExactly(c: Ctx, s: Json, v: Json, depth: nat)
    requires depth <= MAX_REF_DEPTH && forall a, b :: c.leaf.less(a, b) ==> !c.leaf.less(b, a)
    ensures s.Bool? ==> (Passes(c, s, v, depth) <==> s.b)
    ensures s.Obj? ==>
              (Passes(c, s, v, depth)
               <==> && depth < 64
                    && RefAllows(c, s, v, depth + 1)
                    && TypeAllows(s, v, c.leaf)
                    && ValuesAllow(s, v)
                    && KindAllows(c, s, v, depth + 1)
                    && CombinedAllow(c, s, v, depth + 1))
    ensures !s.Bool? && !s.Obj? ==> Passes(c, s, v, depth)
  {
    if s.Obj? && depth < MAX_REF_DEPTH { BodyMeans(c, s, v, depth + 1); }
    hide PassesBody, RefAllows, TypeAllows, ValuesAllow, KindAllows, CombinedAllow;
  }

  lemma BodyMeans(c: Ctx, s: Json, v: Json, d: nat)
    requires d <= MAX_REF_DEPTH && forall a, b :: c.leaf.less(a, b) ==> !c.leaf.less(b, a)
    ensures PassesBody(c, s, v, d)
            <==> RefAllows(c, s, v, d) && TypeAllows(s, v, c.leaf) && ValuesAllow(s, v) && KindAllows(c, s, v, d)
                 && CombinedAllow(c, s, v, d)
  {
    RefsMean(c, s, v, d);
    TypesAgree(s, v, c.leaf);
    ValuesAgree(s, v);
    CombinedMean(c, s, v, d);
    KindsMean(c, s, v, d);
    hide PassesRef, RefAllows, TypeOk, TypeAllows, EnumOk, ConstOk, ValuesAllow, PassesKind, KindAllows, CombinedAllow,
         PassesAll, Passing, HasList, SchemaList, PassesNot, PassesIf;
  }

  lemma KindsMean(c: Ctx, s: Json, v: Json, d: nat)
    requires d <= MAX_REF_DEPTH && forall a, b :: c.leaf.less(a, b) ==> !c.leaf.less(b, a)
    ensures PassesKind(c, s, v, d) <==> KindAllows(c, s, v, d)
  {
    hide NumberIssues, NumberAllows, StringIssues, StringAllows, RequiredIssues, SizeIssues, PassesMembers, ObjectAllows,
         ItemCountIssues, PassesPrefix, PassesRest, PassesContains, ArrayRules, ArrayAllows;
    match v
    case Num(x) => NumbersAgree(s, x, c.leaf);
    case Str(t) => StringsAgree(s, t, c.leaf);
    case Obj(ms) => ObjectsMean(c, s, ms, d);
    case Arr(items) => ArraysMean(c, s, items, d);
    case _ =>
  }
}
