/** Schema validation: the verdict, and the number of issues that the report collects. */
module SchemaSpec {
  import opened Bytes
  import opened Options
  import opened JsonValue
  import opened JsonOps
  import opened Scan
  import opened Pointer

  const MAX_REF_DEPTH: nat := 64
  const MAX_ISSUES: nat := 32
  const HASH: byte := 0x23

  /** What doubles and formats decide is a parameter. */
  datatype Leaf = Leaf(
    less: (Number, Number) -> bool,
    isInteger: Number -> bool,
    multipleFails: (Number, Number) -> bool,
    formatOk: (Bytes, Bytes) -> bool)

  /** The schema that "#" refers to, and the leaf checks. */
  datatype Ctx = Ctx(root: Json, leaf: Leaf)

  function Keyword(s: Json, name: string): Option<Json>
  {
    if s.Obj? then GetMember(s.members, Ascii(name)) else None
  }

  function NumKeyword(s: Json, name: string): Option<Number>
  {
    var k := Keyword(s, name);
    if k.Some? && k.value.Num? then Some(k.value.n) else None
  }

  function Count(fails: bool): nat { if fails then 1 else 0 }

  // --- Checks that need no other schema ---

  function TypeName(v: Json): Bytes
  {
    match v
    case Null => Ascii("null")
    case Bool(_) => Ascii("boolean")
    case Num(_) => Ascii("number")
    case Str(_) => Ascii("string")
    case Arr(_) => Ascii("array")
    case Obj(_) => Ascii("object")
  }

  predicate TypeMatches(t: Bytes, v: Json, leaf: Leaf)
  {
    if t == Ascii("integer") then v.Num? && leaf.isInteger(v.n) else t == TypeName(v)
  }

  predicate SomeTypeMatches(ts: seq<Json>, v: Json, leaf: Leaf)
  {
    exists i :: 0 <= i < |ts| && ts[i].Str? && TypeMatches(ts[i].s, v, leaf)
  }

  predicate TypeOk(s: Json, v: Json, leaf: Leaf)
  {
    match Keyword(s, "type")
    case Some(Str(t)) => TypeMatches(t, v, leaf)
    case Some(Arr(ts)) => SomeTypeMatches(ts, v, leaf)
    case _ => true
  }

  predicate EnumOk(s: Json, v: Json)
  {
    match Keyword(s, "enum")
    case Some(Arr(xs)) => exists i :: 0 <= i < |xs| && Equals(xs[i], v)
    case _ => true
  }

  predicate ConstOk(s: Json, v: Json)
  {
    var c := Keyword(s, "const");
    c.Some? ==> Equals(c.value, v)
  }

  predicate TrueKeyword(s: Json, name: string) { Keyword(s, name) == Some(Bool(true)) }

  /** Bound `name` fails for x; `strict` makes equality fail as well. */
  predicate BelowFails(s: Json, name: string, strict: bool, x: Number, leaf: Leaf)
  {
    var lim := NumKeyword(s, name);
    lim.Some? && if strict then !leaf.less(lim.value, x) else leaf.less(x, lim.value)
  }

  predicate AboveFails(s: Json, name: string, strict: bool, x: Number, leaf: Leaf)
  {
    var lim := NumKeyword(s, name);
    lim.Some? && if strict then !leaf.less(x, lim.value) else leaf.less(lim.value, x)
  }

  predicate MultipleFails(s: Json, x: Number, leaf: Leaf)
  {
    var lim := NumKeyword(s, "multipleOf");
    lim.Some? && leaf.less(Int(0), lim.value) && leaf.multipleFails(x, lim.value)
  }

  function NumberIssues(s: Json, x: Number, leaf: Leaf): nat
  {
    Count(BelowFails(s, "minimum", TrueKeyword(s, "exclusiveMinimum"), x, leaf))
    + Count(AboveFails(s, "maximum", TrueKeyword(s, "exclusiveMaximum"), x, leaf))
    + Count(BelowFails(s, "exclusiveMinimum", true, x, leaf))
    + Count(AboveFails(s, "exclusiveMaximum", true, x, leaf))
    + Count(MultipleFails(s, x, leaf))
  }

  /** Characters of a string: the bytes that do not continue a UTF-8 sequence. */
  function CharCount(t: Bytes): nat
  {
    if t == [] then 0 else (if IsContinuation(t[0]) then 0 else 1) + CharCount(t[1..])
  }

  predicate FormatFails(s: Json, t: Bytes, leaf: Leaf)
  {
    match Keyword(s, "format")
    case Some(Str(f)) => !leaf.formatOk(f, t)
    case _ => false
  }

  function StringIssues(s: Json, t: Bytes, leaf: Leaf): nat
  {
    Count(BelowFails(s, "minLength", false, Int(CharCount(t)), leaf))
    + Count(AboveFails(s, "maxLength", false, Int(CharCount(t)), leaf))
    + Count(FormatFails(s, t, leaf))
  }

  /** Required names that the object does not have. */
  function MissingNames(names: seq<Json>, ms: seq<Member>): nat
  {
    if names == [] then 0
    else Count(names[0].Str? && !HasKey(ms, names[0].s)) + MissingNames(names[1..], ms)
  }

  function RequiredIssues(s: Json, ms: seq<Member>): nat
  {
    match Keyword(s, "required")
    case Some(Arr(names)) => MissingNames(names, ms)
    case _ => 0
  }

  function SizeIssues(s: Json, least: string, most: string, n: nat, leaf: Leaf): nat
  {
    Count(BelowFails(s, least, false, Int(n), leaf)) + Count(AboveFails(s, most, false, Int(n), leaf))
  }

  predicate Repeats(items: seq<Json>)
  {
    exists i, j :: 0 <= i < j < |items| && Equals(items[i], items[j])
  }

  /** The report that the library collects, and the one that would look for everything. */
  datatype Report = EarlyOut | Complete

  /** The library looks for repeated items only while the size checks have passed. */
  function ItemCountIssues(report: Report, s: Json, items: seq<Json>, leaf: Leaf): nat
  {
    var size := SizeIssues(s, "minItems", "maxItems", |items|, leaf);
    size + Count((size == 0 || report.Complete?) && TrueKeyword(s, "uniqueItems") && Repeats(items))
  }

  // --- Where other schemas apply ---

  function RefTarget(root: Json, r: Bytes): Option<Json>
  {
    if r == [HASH] then Some(root)
    else if r != [] && r[0] == HASH then PointerGet(root, r[1..])
    else None
  }

  /** The schema of a property: its own, or the one for additional properties. */
  datatype Rule = NoRule | Forbidden | Under(schema: Json)

  function PropertyRule(s: Json, key: Bytes): Rule
  {
    var props, addl := Keyword(s, "properties"), Keyword(s, "additionalProperties");
    var own := if props.Some? && props.value.Obj? then GetMember(props.value.members, key) else None;
    if own.Some? then Under(own.value)
    else if addl == Some(Bool(false)) then Forbidden
    else if addl.Some? && addl.value.Obj? then Under(addl.value)
    else NoRule
  }

  /** The positional schemas of an array, and the schema of the items after them. */
  datatype ItemRules = ItemRules(prefix: seq<Json>, rest: Option<Json>)

  function ArrayRules(s: Json): ItemRules
  {
    var prefix, items := Keyword(s, "prefixItems"), Keyword(s, "items");
    if prefix.None? && items.Some? && items.value.Arr? then ItemRules(items.value.items, None)
    else
      ItemRules(if prefix.Some? && prefix.value.Arr? then prefix.value.items else [],
                if items.Some? && (items.value.Obj? || items.value.Bool?) then items else None)
  }

  function SchemaList(s: Json, name: string): seq<Json>
  {
    match Keyword(s, name)
    case Some(Arr(xs)) => xs
    case _ => []
  }

  predicate HasList(s: Json, name: string)
  {
    var k := Keyword(s, name);
    k.Some? && k.value.Arr?
  }

  // --- The verdict ---

  predicate Passes(c: Ctx, s: Json, v: Json, depth: nat)
    requires depth <= MAX_REF_DEPTH
    decreases MAX_REF_DEPTH - depth, 0
  {
    match s
    case Bool(b) => b
    case Obj(_) => depth < MAX_REF_DEPTH && PassesBody(c, s, v, depth + 1)
    case _ => true
  }

  predicate PassesBody(c: Ctx, s: Json, v: Json, depth: nat)
    requires depth <= MAX_REF_DEPTH
    decreases MAX_REF_DEPTH - depth, 4
  {
    PassesRef(c, s, v, depth) && TypeOk(s, v, c.leaf) && PassesOther(c, s, v, depth)
  }

  /** Every keyword but $ref and type. */
  predicate PassesOther(c: Ctx, s: Json, v: Json, depth: nat)
    requires depth <= MAX_REF_DEPTH
    decreases MAX_REF_DEPTH - depth, 3
  {
    && EnumOk(s, v)
    && ConstOk(s, v)
    && PassesKind(c, s, v, depth)
    && PassesAll(c, SchemaList(s, "allOf"), v, depth)
    && (HasList(s, "anyOf") ==> Passing(c, SchemaList(s, "anyOf"), v, depth) > 0)
    && (HasList(s, "oneOf") ==> Passing(c, SchemaList(s, "oneOf"), v, depth) == 1)
    && PassesNot(c, s, v, depth)
    && PassesIf(c, s, v, depth)
  }

  predicate PassesRef(c: Ctx, s: Json, v: Json, depth: nat)
    requires depth <= MAX_REF_DEPTH
    decreases MAX_REF_DEPTH - depth, 1
  {
    match Keyword(s, "$ref")
    case Some(Str(r)) =>
      var t := RefTarget(c.root, r);
      t.Some? && Passes(c, t.value, v, depth)
    case _ => true
  }

  predicate PassesKind(c: Ctx, s: Json, v: Json, depth: nat)
    requires depth <= MAX_REF_DEPTH
    decreases MAX_REF_DEPTH - depth, 2
  {
    match v
    case Num(x) => NumberIssues(s, x, c.leaf) == 0
    case Str(t) => StringIssues(s, t, c.leaf) == 0
    case Obj(ms) =>
      && RequiredIssues(s, ms) == 0
      && SizeIssues(s, "minProperties", "maxProperties", |ms|, c.leaf) == 0
      && PassesMembers(c, s, ms, depth)
    case Arr(items) =>
      && ItemCountIssues(EarlyOut, s, items, c.leaf) == 0
      && PassesPrefix(c, ArrayRules(s).prefix, items, depth)
      && (ArrayRules(s).rest.Some? ==> PassesRest(c, ArrayRules(s).rest.value, items, |ArrayRules(s).prefix|, depth))
      && PassesContains(c, s, items, depth)
    case _ => true
  }

  predicate PassesMembers(c: Ctx, s: Json, ms: seq<Member>, depth: nat)
    requires depth <= MAX_REF_DEPTH
    decreases MAX_REF_DEPTH - depth, 1, |ms|
  {
    ms != [] ==>
      && (match PropertyRule(s, ms[0].key)
          case Under(t) => Passes(c, t, ms[0].value, depth)
          case Forbidden => false
          case NoRule => true)
      && PassesMembers(c, s, ms[1..], depth)
  }

  /** Each positional schema against the item at its position. */
  predicate PassesPrefix(c: Ctx, schemas: seq<Json>, items: seq<Json>, depth: nat)
    requires depth <= MAX_REF_DEPTH
    decreases MAX_REF_DEPTH - depth, 1, |schemas|
  {
    schemas != [] && items != [] ==>
      Passes(c, schemas[0], items[0], depth) && PassesPrefix(c, schemas[1..], items[1..], depth)
  }

  /** One schema against every item from a position on. */
  predicate PassesRest(c: Ctx, s: Json, items: seq<Json>, start: nat, depth: nat)
    requires depth <= MAX_REF_DEPTH
    decreases MAX_REF_DEPTH - depth, 1, |items| - start
  {
    start < |items| ==> Passes(c, s, items[start], depth) && PassesRest(c, s, items, start + 1, depth)
  }

  predicate PassesContains(c: Ctx, s: Json, items: seq<Json>, depth: nat)
    requires depth <= MAX_REF_DEPTH
    decreases MAX_REF_DEPTH - depth, 1, 0
  {
    var k := Keyword(s, "contains");
    k.Some? ==> exists i :: 0 <= i < |items| && Passes(c, k.value, items[i], depth)
  }

  predicate PassesAll(c: Ctx, schemas: seq<Json>, v: Json, depth: nat)
    requires depth <= MAX_REF_DEPTH
    decreases MAX_REF_DEPTH - depth, 1, |schemas|
  {
    schemas != [] ==> Passes(c, schemas[0], v, depth) && PassesAll(c, schemas[1..], v, depth)
  }

  /** How many of the schemas the value passes. */
  function Passing(c: Ctx, schemas: seq<Json>, v: Json, depth: nat): nat
    requires depth <= MAX_REF_DEPTH
    decreases MAX_REF_DEPTH - depth, 1, |schemas|
  {
    if schemas == [] then 0 else Count(Passes(c, schemas[0], v, depth)) + Passing(c, schemas[1..], v, depth)
  }

  predicate PassesNot(c: Ctx, s: Json, v: Json, depth: nat)
    requires depth <= MAX_REF_DEPTH
    decreases MAX_REF_DEPTH - depth, 1, 0
  {
    var k := Keyword(s, "not");
    k.Some? ==> !Passes(c, k.value, v, depth)
  }

  /** The branch that `if` chooses. */
  function Branch(c: Ctx, s: Json, v: Json, depth: nat): Option<Json>
    requires depth <= MAX_REF_DEPTH
    decreases MAX_REF_DEPTH - depth, 1, 0
  {
    var k := Keyword(s, "if");
    if k.None? then None
    else if Passes(c, k.value, v, depth) then Keyword(s, "then") else Keyword(s, "else")
  }

  predicate PassesIf(c: Ctx, s: Json, v: Json, depth: nat)
    requires depth <= MAX_REF_DEPTH
    decreases MAX_REF_DEPTH - depth, 2, 0
  {
    var b := Branch(c, s, v, depth);
    b.Some? ==> Passes(c, b.value, v, depth)
  }

  // --- The number of issues in report mode ---

  function Issues(report: Report, c: Ctx, s: Json, v: Json, depth: nat): nat
    requires depth <= MAX_REF_DEPTH
    decreases MAX_REF_DEPTH - depth, 0
  {
    match s
    case Bool(b) => Count(!b)
    case Obj(_) => if depth < MAX_REF_DEPTH then BodyIssues(report, c, s, v, depth + 1) else 1
    case _ => 0
  }

  /** The library does not look any further at a value of the wrong type. */
  function BodyIssues(report: Report, c: Ctx, s: Json, v: Json, depth: nat): nat
    requires depth <= MAX_REF_DEPTH
    decreases MAX_REF_DEPTH - depth, 4
  {
    RefIssues(report, c, s, v, depth) + Count(!TypeOk(s, v, c.leaf))
    + if TypeOk(s, v, c.leaf) || report.Complete? then OtherIssues(report, c, s, v, depth) else 0
  }

  function RefIssues(report: Report, c: Ctx, s: Json, v: Json, depth: nat): nat
    requires depth <= MAX_REF_DEPTH
    decreases MAX_REF_DEPTH - depth, 1
  {
    match Keyword(s, "$ref")
    case Some(Str(r)) =>
      var t := RefTarget(c.root, r);
      if t.Some? then Issues(report, c, t.value, v, depth) else 1
    case _ => 0
  }

  function OtherIssues(report: Report, c: Ctx, s: Json, v: Json, depth: nat): nat
    requires depth <= MAX_REF_DEPTH
    decreases MAX_REF_DEPTH - depth, 3
  {
    Count(!EnumOk(s, v)) + Count(!ConstOk(s, v))
    + KindIssues(report, c, s, v, depth)
    + AllIssues(report, c, SchemaList(s, "allOf"), v, depth)
    + Count(HasList(s, "anyOf") && Passing(c, SchemaList(s, "anyOf"), v, depth) == 0)
    + Count(HasList(s, "oneOf") && Passing(c, SchemaList(s, "oneOf"), v, depth) != 1)
    + Count(!PassesNot(c, s, v, depth))
    + IfIssues(report, c, s, v, depth)
  }

  function KindIssues(report: Report, c: Ctx, s: Json, v: Json, depth: nat): nat
    requires depth <= MAX_REF_DEPTH
    decreases MAX_REF_DEPTH - depth, 2
  {
    match v
    case Num(x) => NumberIssues(s, x, c.leaf)
    case Str(t) => StringIssues(s, t, c.leaf)
    case Obj(ms) =>
      RequiredIssues(s, ms) + SizeIssues(s, "minProperties", "maxProperties", |ms|, c.leaf)
      + MemberIssues(report, c, s, ms, depth)
    case Arr(items) =>
      ItemCountIssues(report, s, items, c.leaf)
      + PrefixIssues(report, c, ArrayRules(s).prefix, items, depth)
      + (if ArrayRules(s).rest.Some?
         then RestIssues(report, c, ArrayRules(s).rest.value, items, |ArrayRules(s).prefix|, depth) else 0)
      + Count(!PassesContains(c, s, items, depth))
    case _ => 0
  }

  function MemberIssues(report: Report, c: Ctx, s: Json, ms: seq<Member>, depth: nat): nat
    requires depth <= MAX_REF_DEPTH
    decreases MAX_REF_DEPTH - depth, 1, |ms|
  {
    if ms == [] then 0
    else
      (match PropertyRule(s, ms[0].key)
       case Under(t) => Issues(report, c, t, ms[0].value, depth)
       case Forbidden => 1
       case NoRule => 0)
      + MemberIssues(report, c, s, ms[1..], depth)
  }

  function PrefixIssues(report: Report, c: Ctx, schemas: seq<Json>, items: seq<Json>, depth: nat): nat
    requires depth <= MAX_REF_DEPTH
    decreases MAX_REF_DEPTH - depth, 1, |schemas|
  {
    if schemas == [] || items == [] then 0
    else Issues(report, c, schemas[0], items[0], depth) + PrefixIssues(report, c, schemas[1..], items[1..], depth)
  }

  function RestIssues(report: Report, c: Ctx, s: Json, items: seq<Json>, start: nat, depth: nat): nat
    requires depth <= MAX_REF_DEPTH
    decreases MAX_REF_DEPTH - depth, 1, |items| - start
  {
    if start >= |items| then 0
    else Issues(report, c, s, items[start], depth) + RestIssues(report, c, s, items, start + 1, depth)
  }

  function AllIssues(report: Report, c: Ctx, schemas: seq<Json>, v: Json, depth: nat): nat
    requires depth <= MAX_REF_DEPTH
    decreases MAX_REF_DEPTH - depth, 1, |schemas|
  {
    if schemas == [] then 0 else Issues(report, c, schemas[0], v, depth) + AllIssues(report, c, schemas[1..], v, depth)
  }

  function IfIssues(report: Report, c: Ctx, s: Json, v: Json, depth: nat): nat
    requires depth <= MAX_REF_DEPTH
    decreases MAX_REF_DEPTH - depth, 2, 0
  {
    var b := Branch(c, s, v, depth);
    if b.Some? then Issues(report, c, b.value, v, depth) else 0
  }

  // --- Both agree ---

  /** A value passes exactly when a report of it, of either kind, has no issue. */
  lemma {:induction false} VerdictIsNoIssue(report: Report, c: Ctx, s: Json, v: Json, depth: nat)
    requires depth <= MAX_REF_DEPTH
    ensures Passes(c, s, v, depth) <==> Issues(report, c, s, v, depth) == 0
    decreases MAX_REF_DEPTH - depth, 0
  {
    hide PassesBody, BodyIssues;
    if s.Obj? && depth < MAX_REF_DEPTH { BodiesAgree(report, c, s, v, depth + 1); }
  }

  lemma {:induction false} BodiesAgree(report: Report, c: Ctx, s: Json, v: Json, depth: nat)
    requires depth <= MAX_REF_DEPTH
    ensures PassesBody(c, s, v, depth) <==> BodyIssues(report, c, s, v, depth) == 0
    decreases MAX_REF_DEPTH - depth, 4
  {
    hide TypeOk, PassesOther, OtherIssues, PassesRef, RefIssues;
    RefsAgree(report, c, s, v, depth);
    OthersAgree(report, c, s, v, depth);
  }

  lemma {:induction false} OthersAgree(report: Report, c: Ctx, s: Json, v: Json, depth: nat)
    requires depth <= MAX_REF_DEPTH
    ensures PassesOther(c, s, v, depth) <==> OtherIssues(report, c, s, v, depth) == 0
    decreases MAX_REF_DEPTH - depth, 3
  {
    hide EnumOk, ConstOk, PassesKind, KindIssues, PassesAll, AllIssues, Passing, HasList, SchemaList, PassesNot,
         PassesIf, IfIssues;
    KindsAgree(report, c, s, v, depth);
    AllsAgree(report, c, SchemaList(s, "allOf"), v, depth);
    BranchesAgree(report, c, s, v, depth);
  }

  lemma {:induction false} RefsAgree(report: Report, c: Ctx, s: Json, v: Json, depth: nat)
    requires depth <= MAX_REF_DEPTH
    ensures PassesRef(c, s, v, depth) <==> RefIssues(report, c, s, v, depth) == 0
    decreases MAX_REF_DEPTH - depth, 1
  {
    hide Passes, Issues, RefTarget, Keyword;
    match Keyword(s, "$ref")
    case Some(Str(r)) =>
      var t := RefTarget(c.root, r);
      if t.Some? { VerdictIsNoIssue(report, c, t.value, v, depth); }
    case _ =>
  }

  lemma {:induction false} KindsAgree(report: Report, c: Ctx, s: Json, v: Json, depth: nat)
    requires depth <= MAX_REF_DEPTH
    ensures PassesKind(c, s, v, depth) <==> KindIssues(report, c, s, v, depth) == 0
    decreases MAX_REF_DEPTH - depth, 2
  {
    hide NumberIssues, StringIssues, RequiredIssues, SizeIssues, TrueKeyword, Repeats, ArrayRules, PassesMembers,
         MemberIssues, PassesPrefix, PrefixIssues, PassesRest, RestIssues, PassesContains;
    match v
    case Obj(ms) => MembersAgree(report, c, s, ms, depth);
    case Arr(items) =>
      var r := ArrayRules(s);
      PrefixesAgree(report, c, r.prefix, items, depth);
      if r.rest.Some? { RestsAgree(report, c, r.rest.value, items, |r.prefix|, depth); }
    case _ =>
  }

  lemma {:induction false} MembersAgree(report: Report, c: Ctx, s: Json, ms: seq<Member>, depth: nat)
    requires depth <= MAX_REF_DEPTH
    ensures PassesMembers(c, s, ms, depth) <==> MemberIssues(report, c, s, ms, depth) == 0
    decreases MAX_REF_DEPTH - depth, 1, |ms|
  {
    hide Passes, Issues, PropertyRule;
    if ms != [] {
      var r := PropertyRule(s, ms[0].key);
      if r.Under? { VerdictIsNoIssue(report, c, r.schema, ms[0].value, depth); }
      MembersAgree(report, c, s, ms[1..], depth);
    }
  }

  lemma {:induction false} PrefixesAgree(report: Report, c: Ctx, schemas: seq<Json>, items: seq<Json>, depth: nat)
    requires depth <= MAX_REF_DEPTH
    ensures PassesPrefix(c, schemas, items, depth) <==> PrefixIssues(report, c, schemas, items, depth) == 0
    decreases MAX_REF_DEPTH - depth, 1, |schemas|
  {
    hide Passes, Issues;
    if schemas != [] && items != [] {
      VerdictIsNoIssue(report, c, schemas[0], items[0], depth);
      PrefixesAgree(report, c, schemas[1..], items[1..], depth);
    }
  }

  lemma {:induction false} RestsAgree(report: Report, c: Ctx, s: Json, items: seq<Json>, start: nat, depth: nat)
    requires depth <= MAX_REF_DEPTH
    ensures PassesRest(c, s, items, start, depth) <==> RestIssues(report, c, s, items, start, depth) == 0
    decreases MAX_REF_DEPTH - depth, 1, |items| - start
  {
    hide Passes, Issues;
    if start < |items| {
      VerdictIsNoIssue(report, c, s, items[start], depth);
      RestsAgree(report, c, s, items, start + 1, depth);
    }
  }

  lemma {:induction false} AllsAgree(report: Report, c: Ctx, schemas: seq<Json>, v: Json, depth: nat)
    requires depth <= MAX_REF_DEPTH
    ensures PassesAll(c, schemas, v, depth) <==> AllIssues(report, c, schemas, v, depth) == 0
    decreases MAX_REF_DEPTH - depth, 1, |schemas|
  {
    hide Passes, Issues;
    if schemas != [] {
      VerdictIsNoIssue(report, c, schemas[0], v, depth);
      AllsAgree(report, c, schemas[1..], v, depth);
    }
  }

  lemma {:induction false} BranchesAgree(report: Report, c: Ctx, s: Json, v: Json, depth: nat)
    requires depth <= MAX_REF_DEPTH
    ensures PassesIf(c, s, v, depth) <==> IfIssues(report, c, s, v, depth) == 0
    decreases MAX_REF_DEPTH - depth, 2, 0
  {
    hide Passes, Issues, Branch;
    var b := Branch(c, s, v, depth);
    if b.Some? { VerdictIsNoIssue(report, c, b.value, v, depth); }
  }

  // --- Where the library's report stops early ---

  /** Nothing is left out by the library's report of the value, at no place that it reaches. */
  predicate Tells(c: Ctx, s: Json, v: Json, depth: nat)
    requires depth <= MAX_REF_DEPTH
    decreases MAX_REF_DEPTH - depth, 0
  {
    s.Obj? && depth < MAX_REF_DEPTH ==> TellsBody(c, s, v, depth + 1)
  }

  /** With the wrong type, nothing else may fail. */
  predicate TellsBody(c: Ctx, s: Json, v: Json, depth: nat)
    requires depth <= MAX_REF_DEPTH
    decreases MAX_REF_DEPTH - depth, 4
  {
    TellsRef(c, s, v, depth) && if TypeOk(s, v, c.leaf) then TellsOther(c, s, v, depth) else PassesOther(c, s, v, depth)
  }

  predicate TellsRef(c: Ctx, s: Json, v: Json, depth: nat)
    requires depth <= MAX_REF_DEPTH
    decreases MAX_REF_DEPTH - depth, 1
  {
    match Keyword(s, "$ref")
    case Some(Str(r)) =>
      var t := RefTarget(c.root, r);
      t.Some? ==> Tells(c, t.value, v, depth)
    case _ => true
  }

  predicate TellsOther(c: Ctx, s: Json, v: Json, depth: nat)
    requires depth <= MAX_REF_DEPTH
    decreases MAX_REF_DEPTH - depth, 3
  {
    TellsKind(c, s, v, depth) && TellsAll(c, SchemaList(s, "allOf"), v, depth) && TellsIf(c, s, v, depth)
  }

  /** Items that must not repeat may do so only when the size is right. */
  predicate TellsKind(c: Ctx, s: Json, v: Json, depth: nat)
    requires depth <= MAX_REF_DEPTH
    decreases MAX_REF_DEPTH - depth, 2
  {
    match v
    case Obj(ms) => TellsMembers(c, s, ms, depth)
    case Arr(items) =>
      && (SizeIssues(s, "minItems", "maxItems", |items|, c.leaf) == 0 || !TrueKeyword(s, "uniqueItems") || !Repeats(items))
      && TellsPrefix(c, ArrayRules(s).prefix, items, depth)
      && (ArrayRules(s).rest.Some? ==> TellsRest(c, ArrayRules(s).rest.value, items, |ArrayRules(s).prefix|, depth))
    case _ => true
  }

  predicate TellsMembers(c: Ctx, s: Json, ms: seq<Member>, depth: nat)
    requires depth <= MAX_REF_DEPTH
    decreases MAX_REF_DEPTH - depth, 1, |ms|
  {
    ms != [] ==>
      && (PropertyRule(s, ms[0].key).Under? ==> Tells(c, PropertyRule(s, ms[0].key).schema, ms[0].value, depth))
      && TellsMembers(c, s, ms[1..], depth)
  }

  predicate TellsPrefix(c: Ctx, schemas: seq<Json>, items: seq<Json>, depth: nat)
    requires depth <= MAX_REF_DEPTH
    decreases MAX_REF_DEPTH - depth, 1, |schemas|
  {
    schemas != [] && items != [] ==>
      Tells(c, schemas[0], items[0], depth) && TellsPrefix(c, schemas[1..], items[1..], depth)
  }

  predicate TellsRest(c: Ctx, s: Json, items: seq<Json>, start: nat, depth: nat)
    requires depth <= MAX_REF_DEPTH
    decreases MAX_REF_DEPTH - depth, 1, |items| - start
  {
    start < |items| ==> Tells(c, s, items[start], depth) && TellsRest(c, s, items, start + 1, depth)
  }

  predicate TellsAll(c: Ctx, schemas: seq<Json>, v: Json, depth: nat)
    requires depth <= MAX_REF_DEPTH
    decreases MAX_REF_DEPTH - depth, 1, |schemas|
  {
    schemas != [] ==> Tells(c, schemas[0], v, depth) && TellsAll(c, schemas[1..], v, depth)
  }

  predicate TellsIf(c: Ctx, s: Json, v: Json, depth: nat)
    requires depth <= MAX_REF_DEPTH
    decreases MAX_REF_DEPTH - depth, 2, 0
  {
    var b := Branch(c, s, v, depth);
    b.Some? ==> Tells(c, b.value, v, depth)
  }

  /** The first count is never more than the second, and equal to it exactly when nothing is left out. */
  predicate Misses(early: nat, complete: nat, tells: bool) { early <= complete && (early == complete <==> tells) }

  /**
   * The library's report never has more issues than the complete one, has none exactly when that has none, and has
   * equally many exactly when no failing type hides another failure and no failing size a repetition.
   */
  lemma EarlyOutMissesOnly(c: Ctx, s: Json, v: Json, depth: nat)
    requires depth <= MAX_REF_DEPTH
    ensures Issues(EarlyOut, c, s, v, depth) <= Issues(Complete, c, s, v, depth)
    ensures Issues(EarlyOut, c, s, v, depth) == 0 <==> Issues(Complete, c, s, v, depth) == 0
    ensures Issues(EarlyOut, c, s, v, depth) == Issues(Complete, c, s, v, depth) <==> Tells(c, s, v, depth)
  {
    MissesSome(c, s, v, depth);
    VerdictIsNoIssue(EarlyOut, c, s, v, depth);
    VerdictIsNoIssue(Complete, c, s, v, depth);
  }

  lemma {:induction false} MissesSome(c: Ctx, s: Json, v: Json, depth: nat)
    requires depth <= MAX_REF_DEPTH
    ensures Misses(Issues(EarlyOut, c, s, v, depth), Issues(Complete, c, s, v, depth), Tells(c, s, v, depth))
    decreases MAX_REF_DEPTH - depth, 0
  {
    hide BodyIssues, TellsBody;
    if s.Obj? && depth < MAX_REF_DEPTH { BodiesMiss(c, s, v, depth + 1); }
  }

  lemma {:induction false} BodiesMiss(c: Ctx, s: Json, v: Json, depth: nat)
    requires depth <= MAX_REF_DEPTH
    ensures Misses(BodyIssues(EarlyOut, c, s, v, depth), BodyIssues(Complete, c, s, v, depth), TellsBody(c, s, v, depth))
    decreases MAX_REF_DEPTH - depth, 4
  {
    hide TypeOk, RefIssues, OtherIssues, TellsRef, TellsOther, PassesOther;
    RefsMiss(c, s, v, depth);
    OthersMiss(c, s, v, depth);
    OthersAgree(Complete, c, s, v, depth);
  }

  lemma {:induction false} RefsMiss(c: Ctx, s: Json, v: Json, depth: nat)
    requires depth <= MAX_REF_DEPTH
    ensures Misses(RefIssues(EarlyOut, c, s, v, depth), RefIssues(Complete, c, s, v, depth), TellsRef(c, s, v, depth))
    decreases MAX_REF_DEPTH - depth, 1
  {
    hide Issues, Tells, RefTarget, Keyword;
    match Keyword(s, "$ref")
    case Some(Str(r)) =>
      var t := RefTarget(c.root, r);
      if t.Some? { MissesSome(c, t.value, v, depth); }
    case _ =>
  }

  lemma {:induction false} OthersMiss(c: Ctx, s: Json, v: Json, depth: nat)
    requires depth <= MAX_REF_DEPTH
    ensures Misses(OtherIssues(EarlyOut, c, s, v, depth), OtherIssues(Complete, c, s, v, depth), TellsOther(c, s, v, depth))
    decreases MAX_REF_DEPTH - depth, 3
  {
    hide EnumOk, ConstOk, KindIssues, AllIssues, IfIssues, Passing, HasList, SchemaList, PassesNot, TellsKind, TellsAll,
         TellsIf;
    KindsMiss(c, s, v, depth);
    AllsMiss(c, SchemaList(s, "allOf"), v, depth);
    BranchesMiss(c, s, v, depth);
  }

  lemma {:induction false} BranchesMiss(c: Ctx, s: Json, v: Json, depth: nat)
    requires depth <= MAX_REF_DEPTH
    ensures Misses(IfIssues(EarlyOut, c, s, v, depth), IfIssues(Complete, c, s, v, depth), TellsIf(c, s, v, depth))
    decreases MAX_REF_DEPTH - depth, 2, 0
  {
    hide Issues, Tells, Branch;
    var b := Branch(c, s, v, depth);
    if b.Some? { MissesSome(c, b.value, v, depth); }
  }

  lemma {:induction false} KindsMiss(c: Ctx, s: Json, v: Json, depth: nat)
    requires depth <= MAX_REF_DEPTH
    ensures Misses(KindIssues(EarlyOut, c, s, v, depth), KindIssues(Complete, c, s, v, depth), TellsKind(c, s, v, depth))
    decreases MAX_REF_DEPTH - depth, 2
  {
    hide NumberIssues, StringIssues, RequiredIssues, SizeIssues, TrueKeyword, Repeats, ArrayRules, MemberIssues,
         PrefixIssues, RestIssues, PassesContains, TellsMembers, TellsPrefix, TellsRest;
    match v
    case Obj(ms) => MembersMiss(c, s, ms, depth);
    case Arr(items) =>
      var rules := ArrayRules(s);
      PrefixesMiss(c, rules.prefix, items, depth);
      if rules.rest.Some? { RestsMiss(c, rules.rest.value, items, |rules.prefix|, depth); }
    case _ =>
  }

  lemma {:induction false} MembersMiss(c: Ctx, s: Json, ms: seq<Member>, depth: nat)
    requires depth <= MAX_REF_DEPTH
    ensures Misses(MemberIssues(EarlyOut, c, s, ms, depth), MemberIssues(Complete, c, s, ms, depth), TellsMembers(c, s, ms, depth))
    decreases MAX_REF_DEPTH - depth, 1, |ms|
  {
    hide Issues, Tells, PropertyRule;
    if ms != [] {
      var rule := PropertyRule(s, ms[0].key);
      if rule.Under? { MissesSome(c, rule.schema, ms[0].value, depth); }
      MembersMiss(c, s, ms[1..], depth);
    }
  }

  lemma {:induction false} PrefixesMiss(c: Ctx, schemas: seq<Json>, items: seq<Json>, depth: nat)
    requires depth <= MAX_REF_DEPTH
    ensures Misses(PrefixIssues(EarlyOut, c, schemas, items, depth), PrefixIssues(Complete, c, schemas, items, depth), TellsPrefix(c, schemas, items, depth))
    decreases MAX_REF_DEPTH - depth, 1, |schemas|
  {
    hide Issues, Tells;
    if schemas != [] && items != [] {
      MissesSome(c, schemas[0], items[0], depth);
      PrefixesMiss(c, schemas[1..], items[1..], depth);
    }
  }

  lemma {:induction false} RestsMiss(c: Ctx, s: Json, items: seq<Json>, start: nat, depth: nat)
    requires depth <= MAX_REF_DEPTH
    ensures Misses(RestIssues(EarlyOut, c, s, items, start, depth), RestIssues(Complete, c, s, items, start, depth), TellsRest(c, s, items, start, depth))
    decreases MAX_REF_DEPTH - depth, 1, |items| - start
  {
    hide Issues, Tells;
    if start < |items| {
      MissesSome(c, s, items[start], depth);
      RestsMiss(c, s, items, start + 1, depth);
    }
  }

  lemma {:induction false} AllsMiss(c: Ctx, schemas: seq<Json>, v: Json, depth: nat)
    requires depth <= MAX_REF_DEPTH
    ensures Misses(AllIssues(EarlyOut, c, schemas, v, depth), AllIssues(Complete, c, schemas, v, depth), TellsAll(c, schemas, v, depth))
    decreases MAX_REF_DEPTH - depth, 1, |schemas|
  {
    hide Issues, Tells;
    if schemas != [] {
      MissesSome(c, schemas[0], v, depth);
      AllsMiss(c, schemas[1..], v, depth);
    }
  }

  /** An array's count of issues is complete unless a size check fails, items must not repeat, and some do. */
  lemma ItemReportIsComplete(s: Json, items: seq<Json>, leaf: Leaf)
    ensures ItemCountIssues(EarlyOut, s, items, leaf) == ItemCountIssues(Complete, s, items, leaf)
            <==> (SizeIssues(s, "minItems", "maxItems", |items|, leaf) == 0 || !TrueKeyword(s, "uniqueItems")
                  || !Repeats(items))
    ensures ItemCountIssues(Complete, s, items, leaf)
         == SizeIssues(s, "minItems", "maxItems", |items|, leaf)
            + Count(TrueKeyword(s, "uniqueItems") && Repeats(items))
  {
  }

  /** Going on after a type mismatch finds more exactly when the value fails another keyword than $ref and type. */
  lemma TypeReportIsComplete(c: Ctx, s: Json, v: Json, depth: nat)
    requires depth <= MAX_REF_DEPTH
    ensures var onward := RefIssues(EarlyOut, c, s, v, depth) + Count(!TypeOk(s, v, c.leaf))
                          + OtherIssues(EarlyOut, c, s, v, depth);
            && BodyIssues(EarlyOut, c, s, v, depth) <= onward
            && (BodyIssues(EarlyOut, c, s, v, depth) == onward
                <==> TypeOk(s, v, c.leaf) || PassesOther(c, s, v, depth))
  {
    hide RefIssues, OtherIssues, PassesOther, TypeOk;
    OthersAgree(EarlyOut, c, s, v, depth);
  }

  // --- What is missed ---

  predicate Plain(s: string) { forall i :: 0 <= i < |s| ==> s[i] as int < 256 }

  lemma SpelledAlike(a: string, b: string)
    requires Plain(a) && Plain(b) && Ascii(a) == Ascii(b)
    ensures a == b
  {
    forall i | 0 <= i < |a| ensures a[i] == b[i] { assert Ascii(a)[i] == Ascii(b)[i]; }
  }

  /** A schema with two keywords. */
  function Two(a: string, x: Json, b: string, y: Json): Json { Obj([Member(Ascii(a), x), Member(Ascii(b), y)]) }

  lemma TwoKeywords(a: string, x: Json, b: string, y: Json, name: string)
    requires Plain(a) && Plain(b) && Plain(name) && a != b
    ensures Keyword(Two(a, x, b, y), name) == if name == a then Some(x) else if name == b then Some(y) else None
  {
    hide Ascii, Plain;
    if Ascii(a) == Ascii(name) { SpelledAlike(a, name); }
    if Ascii(b) == Ascii(name) { SpelledAlike(b, name); }
    var ms := Two(a, x, b, y).members;
    assert ms[0] == Member(Ascii(a), x) && ms[1] == Member(Ascii(b), y) && |ms| == 2;
    hide FindKey;
    var i := FindKey(ms, Ascii(name));
    assert i < 2 ==> ms[i].key == Ascii(name);
  }

  const OTHER_NAMES: seq<string> := ["$ref", "enum", "allOf", "anyOf", "oneOf", "not", "if"]
  const ITEM_NAMES: seq<string> := ["prefixItems", "items", "contains", "maxItems", "type", "const"]

  /** No other schema applies, and any value is listed. */
  predicate StandsAlone(s: Json)
  {
    s.Obj? && forall name :: name in OTHER_NAMES ==> Keyword(s, name).None?
  }

  lemma AloneIssues(report: Report, c: Ctx, s: Json, v: Json)
    requires StandsAlone(s)
    ensures Issues(report, c, s, v, 0)
         == Count(!TypeOk(s, v, c.leaf))
            + if TypeOk(s, v, c.leaf) || report.Complete? then Count(!ConstOk(s, v)) + KindIssues(report, c, s, v, 1) else 0
  {
    hide Keyword, KindIssues, TypeOk, ConstOk;
    var names := OTHER_NAMES;
    assert names[0] == "$ref" && names[1] == "enum" && names[2] == "allOf" && names[3] == "anyOf" && names[4] == "oneOf"
        && names[5] == "not" && names[6] == "if";
    assert forall k :: 0 <= k < 7 ==> Keyword(s, names[k]).None?;
  }

  lemma SizedIssues(report: Report, c: Ctx, s: Json, items: seq<Json>)
    requires Keyword(s, "prefixItems").None? && Keyword(s, "items").None? && Keyword(s, "contains").None?
    ensures KindIssues(report, c, s, Arr(items), 1) == ItemCountIssues(report, s, items, c.leaf)
  {
    hide Keyword, ItemCountIssues;
  }

  /** A size check that fails hides the repetition. */
  lemma SizedAndRepeated(s: Json, items: seq<Json>, leaf: Leaf)
    requires Keyword(s, "minItems") == Some(Num(Int(3))) && Keyword(s, "maxItems").None?
    requires TrueKeyword(s, "uniqueItems") && |items| == 2 && Repeats(items) && leaf.less(Int(2), Int(3))
    ensures ItemCountIssues(EarlyOut, s, items, leaf) == 1 && ItemCountIssues(Complete, s, items, leaf) == 2
  {
    hide Keyword, Repeats, TrueKeyword;
  }

  lemma RepeatedOnes()
    ensures Repeats([Num(Int(1)), Num(Int(1))])
  {
    var items := [Num(Int(1)), Num(Int(1))];
    assert Equals(items[0], items[1]);
  }

  predicate MissesOne(c: Ctx, s: Json, v: Json)
  {
    Issues(EarlyOut, c, s, v, 0) == 1 && Issues(Complete, c, s, v, 0) == 2
  }

  lemma RepeatsMissed(s: Json, items: seq<Json>, leaf: Leaf)
    requires StandsAlone(s) && forall name :: name in ITEM_NAMES ==> Keyword(s, name).None?
    requires Keyword(s, "minItems") == Some(Num(Int(3)))
    requires TrueKeyword(s, "uniqueItems") && |items| == 2 && Repeats(items) && leaf.less(Int(2), Int(3))
    ensures MissesOne(Ctx(s, leaf), s, Arr(items))
  {
    hide Keyword, Repeats, TrueKeyword, Issues, KindIssues, ItemCountIssues, StandsAlone, ITEM_NAMES;
    ItemNamesLacking(s);
    SizedAndRepeated(s, items, leaf);
    AloneIssues(EarlyOut, Ctx(s, leaf), s, Arr(items));
    AloneIssues(Complete, Ctx(s, leaf), s, Arr(items));
    SizedIssues(EarlyOut, Ctx(s, leaf), s, items);
    SizedIssues(Complete, Ctx(s, leaf), s, items);
  }

  /** Names that are neither of the two. */
  predicate Apart(names: seq<string>, a: string, b: string)
  {
    forall name :: name in names ==> Plain(name) && name != a && name != b
  }

  lemma Lacks(a: string, x: Json, b: string, y: Json, names: seq<string>)
    requires Plain(a) && Plain(b) && a != b && Apart(names, a, b)
    ensures forall name :: name in names ==> Keyword(Two(a, x, b, y), name).None?
    ensures Keyword(Two(a, x, b, y), a) == Some(x) && Keyword(Two(a, x, b, y), b) == Some(y)
  {
    hide Keyword, Two, Plain;
    TwoKeywords(a, x, b, y, a);
    TwoKeywords(a, x, b, y, b);
    forall name | name in names ensures Keyword(Two(a, x, b, y), name).None? { TwoKeywords(a, x, b, y, name); }
  }

  lemma SizeNames()
    ensures Plain("minItems") && Plain("uniqueItems") && "minItems" != "uniqueItems"
  {
    assert |"minItems"| != |"uniqueItems"|;
  }

  lemma SizeApartFromOthers()
    ensures Apart(OTHER_NAMES, "minItems", "uniqueItems")
  {
    assert forall name :: name in OTHER_NAMES ==> |name| < 6;
    assert |"minItems"| == 8 && |"uniqueItems"| == 11;
  }

  lemma SizeApartFromItems()
    ensures Apart(ITEM_NAMES, "minItems", "uniqueItems")
  {
    assert forall name :: name in ITEM_NAMES ==> Plain(name);
    hide Plain;
    assert "prefixItems"[0] == 'p' && "uniqueItems"[0] == 'u' && "maxItems"[1] == 'a' && "minItems"[1] == 'i'
        && "contains"[0] == 'c' && "minItems"[0] == 'm';
    assert |"minItems"| == 8 && |"uniqueItems"| == 11;
  }

  lemma ItemNamesLacking(s: Json)
    requires forall name :: name in ITEM_NAMES ==> Keyword(s, name).None?
    ensures Keyword(s, "prefixItems").None? && Keyword(s, "items").None? && Keyword(s, "contains").None?
    ensures Keyword(s, "maxItems").None? && Keyword(s, "type").None? && Keyword(s, "const").None?
  {
    hide Keyword;
    var names := ITEM_NAMES;
    assert names[0] == "prefixItems" && names[1] == "items" && names[2] == "contains" && names[3] == "maxItems"
        && names[4] == "type" && names[5] == "const";
  }

  /** Two equal items where at least three different ones are asked for: the library reports one issue of two. */
  lemma RepeatsGoUnseen(leaf: Leaf)
    requires leaf.less(Int(2), Int(3))
    ensures var s := Two("minItems", Num(Int(3)), "uniqueItems", Bool(true));
            MissesOne(Ctx(s, leaf), s, Arr([Num(Int(1)), Num(Int(1))]))
  {
    var x, y := Num(Int(3)), Bool(true);
    var s := Two("minItems", x, "uniqueItems", y);
    SizeNames();
    SizeApartFromOthers();
    SizeApartFromItems();
    RepeatedOnes();
    hide Keyword, MissesOne, Repeats, Plain, Apart, OTHER_NAMES, ITEM_NAMES;
    Lacks("minItems", x, "uniqueItems", y, OTHER_NAMES);
    Lacks("minItems", x, "uniqueItems", y, ITEM_NAMES);
    ItemNamesLacking(s);
    RepeatsMissed(s, [Num(Int(1)), Num(Int(1))], leaf);
  }

  lemma ConstMissed(s: Json, leaf: Leaf)
    requires StandsAlone(s) && Keyword(s, "type") == Some(Str(Ascii("string"))) && Keyword(s, "const") == Some(Str([]))
    ensures MissesOne(Ctx(s, leaf), s, Null)
  {
    hide Keyword, Issues, StandsAlone;
    assert |Ascii("string")| == 6 && |Ascii("integer")| == 7 && |Ascii("null")| == 4;
    AloneIssues(EarlyOut, Ctx(s, leaf), s, Null);
    AloneIssues(Complete, Ctx(s, leaf), s, Null);
  }

  lemma TypeNames()
    ensures Plain("type") && Plain("const") && "type" != "const" && Apart(OTHER_NAMES, "type", "const")
  {
    assert |"type"| != |"const"|;
    assert "type"[0] == 't' && "$ref"[0] == '$' && "enum"[0] == 'e' && "allOf"[0] == 'a' && "anyOf"[0] == 'a'
        && "oneOf"[0] == 'o' && "const"[0] == 'c';
  }

  /** Nothing at all, where a certain text is asked for: the library reports one issue of two. */
  lemma OthersGoUnseen(leaf: Leaf)
    ensures var s := Two("type", Str(Ascii("string")), "const", Str([])); MissesOne(Ctx(s, leaf), s, Null)
  {
    var x, y := Str(Ascii("string")), Str([]);
    TypeNames();
    hide Keyword, MissesOne, Plain, Apart, OTHER_NAMES;
    Lacks("type", x, "const", y, OTHER_NAMES);
    ConstMissed(Two("type", x, "const", y), leaf);
  }
}
