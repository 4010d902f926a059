/** The validator in its own form: one walk that either collects issues or stops at the first failure. */
module Schema {
  import opened Bytes
  import opened Options
  import opened JsonValue
  import opened JsonOps
  import opened Pointer
  import opened SchemaSpec
  import PatchLoops

  class Validator {
    const c: Ctx
    const reporting: bool // otherwise silent: stop at the first failure
    var depth: nat
    var total: nat
    var stored: seq<string> // the keywords of the issues kept, at most 32

    ghost predicate Valid()
      reads this
    {
      depth <= MAX_REF_DEPTH && |stored| == if total < MAX_ISSUES then total else MAX_ISSUES
    }

    /** What a check that should find n issues must have done. */
    twostate predicate Found(ok: bool, n: nat)
      reads this
    {
      && depth == old(depth)
      && ok == (n == 0)
      && total == (if reporting then old(total) + n else old(total))
    }

    /** The same in the middle of a check: n issues so far, and in silent mode none, or the check would be over. */
    twostate predicate SoFar(ok: bool, n: nat)
      reads this
    {
      Found(ok, n) && (reporting || n == 0)
    }

    constructor (c: Ctx, reporting: bool, depth: nat)
      requires depth <= MAX_REF_DEPTH
      ensures Valid() && this.c == c && this.reporting == reporting && this.depth == depth && total == 0
    {
      this.c, this.reporting, this.depth, total, stored := c, reporting, depth, 0, [];
    }

    method Issue(keyword: string)
      requires Valid()
      modifies this`total, this`stored
      ensures Valid() && total == if reporting then old(total) + 1 else old(total)
    {
      if !reporting { return; }
      total := total + 1;
      if |stored| >= MAX_ISSUES { return; }
      stored := stored + [keyword];
    }

    /** Records an issue when the check fails. */
    method Check(fails: bool, keyword: string) returns (ok: bool)
      requires Valid()
      modifies this`total, this`stored
      ensures Valid() && Found(ok, Count(fails))
    {
      if fails { Issue(keyword); }
      return !fails;
    }

    /** The verdict alone, from a walk of its own that reports nothing. */
    method SilentValid(s: Json, v: Json) returns (ok: bool)
      requires Valid()
      ensures ok == Passes(c, s, v, depth)
      decreases MAX_REF_DEPTH - depth, 1, 0, 0
    {
      var sub := new Validator(c, false, depth);
      ok := sub.Validate(s, v);
      VerdictIsNoIssue(EarlyOut, c, s, v, depth);
    }

    method Validate(s: Json, v: Json) returns (ok: bool)
      requires Valid()
      modifies this
      ensures Valid() && Found(ok, Issues(EarlyOut, c, s, v, old(depth)))
      decreases MAX_REF_DEPTH - depth, 0
    {
      hide BodyIssues;
      match s {
        case Bool(b) => ok := Check(!b, "false");
        case Obj(_) =>
          if depth >= MAX_REF_DEPTH {
            ok := Check(true, "$ref");
            return;
          }
          depth := depth + 1;
          ok := Body(s, v);
          depth := depth - 1;
        case _ => ok := true;
      }
    }

    method Body(s: Json, v: Json) returns (ok: bool)
      requires Valid()
      modifies this
      ensures Valid() && Found(ok, BodyIssues(EarlyOut, c, s, v, old(depth)))
      decreases MAX_REF_DEPTH - depth, 5
    {
      hide RefIssues, OtherIssues;
      ok := Ref(s, v);
      if !ok && !reporting { return; }
      var typed := HasType(s, v);
      if !typed {
        Issue("type");
        return false;
      }
      var rest := Others(s, v);
      ok := ok && rest;
    }

    method Ref(s: Json, v: Json) returns (ok: bool)
      requires Valid()
      modifies this
      ensures Valid() && Found(ok, RefIssues(EarlyOut, c, s, v, old(depth)))
      decreases MAX_REF_DEPTH - depth, 1
    {
      hide Issues, Keyword;
      match Keyword(s, "$ref") {
        case Some(Str(r)) =>
          var target: Option<Json> := None;
          if r == [HASH] {
            target := Some(c.root);
          } else if r != [] && r[0] == HASH {
            target := PatchLoops.GetAtPointer(c.root, r[1..]);
          }
          if target.None? { ok := Check(true, "$ref"); } else { ok := Validate(target.value, v); }
        case _ => ok := true;
      }
    }

    method HasType(s: Json, v: Json) returns (m: bool)
      ensures m == TypeOk(s, v, c.leaf)
    {
      hide TypeMatches, Keyword;
      match Keyword(s, "type") {
        case Some(Str(t)) => m := TypeMatches(t, v, c.leaf);
        case Some(Arr(ts)) =>
          m := false;
          var i := 0;
          while i < |ts| && !m
            invariant 0 <= i <= |ts|
            invariant m <==> exists k :: 0 <= k < i && ts[k].Str? && TypeMatches(ts[k].s, v, c.leaf)
          {
            m := ts[i].Str? && TypeMatches(ts[i].s, v, c.leaf);
            i := i + 1;
          }
        case _ => m := true;
      }
    }

    method InEnum(s: Json, v: Json) returns (found: bool)
      ensures found == EnumOk(s, v)
    {
      hide Equals, Keyword;
      match Keyword(s, "enum") {
        case Some(Arr(xs)) =>
          found := false;
          var i := 0;
          while i < |xs| && !found
            invariant 0 <= i <= |xs| && (found <==> exists k :: 0 <= k < i && Equals(xs[k], v))
          {
            found := PatchLoops.EqualsTree(xs[i], v);
            i := i + 1;
          }
        case _ => found := true;
      }
    }

    method Others(s: Json, v: Json) returns (ok: bool)
      requires Valid()
      modifies this
      ensures Valid() && Found(ok, OtherIssues(EarlyOut, c, s, v, old(depth)))
      decreases MAX_REF_DEPTH - depth, 4, 1
    {
      hide EnumOk, ConstOk, KindIssues, AllIssues, Passing, HasList, SchemaList, PassesNot, IfIssues;
      ok := Values(s, v);
      if !ok && !reporting { return; }
      var one := KindAndComposed(s, v);
      ok := ok && one;
    }

    method KindAndComposed(s: Json, v: Json) returns (ok: bool)
      requires Valid()
      modifies this
      ensures Valid()
      ensures Found(ok, KindIssues(EarlyOut, c, s, v, old(depth))
                        + (AllIssues(EarlyOut, c, SchemaList(s, "allOf"), v, old(depth))
                           + Count(HasList(s, "anyOf") && Passing(c, SchemaList(s, "anyOf"), v, old(depth)) == 0)
                           + Count(HasList(s, "oneOf") && Passing(c, SchemaList(s, "oneOf"), v, old(depth)) != 1)
                           + Count(!PassesNot(c, s, v, old(depth)))
                           + IfIssues(EarlyOut, c, s, v, old(depth))))
      decreases MAX_REF_DEPTH - depth, 4, 0
    {
      hide KindIssues, AllIssues, Passing, HasList, SchemaList, PassesNot, IfIssues, Count;
      ok := Kind(s, v);
      if !ok && !reporting { return; }
      var one := Composed(s, v);
      ok := ok && one;
    }

    /** enum and const. */
    method Values(s: Json, v: Json) returns (ok: bool)
      requires Valid()
      modifies this`total, this`stored
      ensures Valid() && Found(ok, Count(!EnumOk(s, v)) + Count(!ConstOk(s, v)))
    {
      hide EnumOk, ConstOk;
      var one := InEnum(s, v);
      ok := Check(!one, "enum");
      if !ok && !reporting { return; }
      one := Check(!ConstOk(s, v), "const");
      ok := ok && one;
    }

    /** The keywords that combine other schemas. */
    method Composed(s: Json, v: Json) returns (ok: bool)
      requires Valid()
      modifies this
      ensures Valid()
      ensures Found(ok, AllIssues(EarlyOut, c, SchemaList(s, "allOf"), v, old(depth))
                        + Count(HasList(s, "anyOf") && Passing(c, SchemaList(s, "anyOf"), v, old(depth)) == 0)
                        + Count(HasList(s, "oneOf") && Passing(c, SchemaList(s, "oneOf"), v, old(depth)) != 1)
                        + Count(!PassesNot(c, s, v, old(depth)))
                        + IfIssues(EarlyOut, c, s, v, old(depth)))
      decreases MAX_REF_DEPTH - depth, 3, 1
    {
      hide AllIssues, Passing, HasList, SchemaList, PassesNot, IfIssues;
      ok := All(SchemaList(s, "allOf"), v);
      if !ok && !reporting { return; }
      var one := Combinators(s, v);
      ok := ok && one;
      if !ok && !reporting { return; }
      one := If(s, v);
      ok := ok && one;
    }

    /** anyOf, oneOf and not. */
    method Combinators(s: Json, v: Json) returns (ok: bool)
      requires Valid()
      modifies this
      ensures Valid()
      ensures Found(ok, Count(HasList(s, "anyOf") && Passing(c, SchemaList(s, "anyOf"), v, old(depth)) == 0)
                        + Count(HasList(s, "oneOf") && Passing(c, SchemaList(s, "oneOf"), v, old(depth)) != 1)
                        + Count(!PassesNot(c, s, v, old(depth))))
      decreases MAX_REF_DEPTH - depth, 3, 0
    {
      hide Passing, HasList, SchemaList, PassesNot;
      ok := AnyOf(s, v);
      if !ok && !reporting { return; }
      var one := OneOf(s, v);
      ok := ok && one;
      if !ok && !reporting { return; }
      one := Not(s, v);
      ok := ok && one;
    }

    method AnyOf(s: Json, v: Json) returns (ok: bool)
      requires Valid()
      modifies this`total, this`stored
      ensures Valid()
      ensures Found(ok, Count(HasList(s, "anyOf") && Passing(c, SchemaList(s, "anyOf"), v, depth) == 0))
      decreases MAX_REF_DEPTH - depth, 2, 1
    {
      hide Passing, HasList, SchemaList;
      ok := true;
      if HasList(s, "anyOf") {
        var found := AnyPasses(SchemaList(s, "anyOf"), v);
        ok := Check(!found, "anyOf");
      }
    }

    method OneOf(s: Json, v: Json) returns (ok: bool)
      requires Valid()
      modifies this`total, this`stored
      ensures Valid()
      ensures Found(ok, Count(HasList(s, "oneOf") && Passing(c, SchemaList(s, "oneOf"), v, depth) != 1))
      decreases MAX_REF_DEPTH - depth, 2, 1
    {
      hide Passing, HasList, SchemaList;
      ok := true;
      if HasList(s, "oneOf") {
        var matches := CountPassing(SchemaList(s, "oneOf"), v);
        ok := Check(matches != 1, "oneOf");
      }
    }

    method Not(s: Json, v: Json) returns (ok: bool)
      requires Valid()
      modifies this`total, this`stored
      ensures Valid() && Found(ok, Count(!PassesNot(c, s, v, depth)))
      decreases MAX_REF_DEPTH - depth, 2, 1
    {
      hide Passes, Keyword;
      ok := true;
      var k := Keyword(s, "not");
      if k.Some? {
        var passes := SilentValid(k.value, v);
        ok := Check(passes, "not");
      }
    }

    method AnyPasses(schemas: seq<Json>, v: Json) returns (found: bool)
      requires Valid()
      ensures found == (Passing(c, schemas, v, depth) > 0)
      decreases MAX_REF_DEPTH - depth, 2, 0
    {
      hide Passes;
      found := false;
      var i := 0;
      assert schemas[0..] == schemas;
      while i < |schemas| && !found
        invariant 0 <= i <= |schemas| && Valid()
        invariant if found then Passing(c, schemas, v, depth) > 0
                  else Passing(c, schemas[i..], v, depth) == Passing(c, schemas, v, depth)
      {
        assert schemas[i..][1..] == schemas[i + 1..] && schemas[i..][0] == schemas[i];
        found := SilentValid(schemas[i], v);
        i := i + 1;
      }
    }

    method CountPassing(schemas: seq<Json>, v: Json) returns (matches: nat)
      requires Valid()
      ensures matches == Passing(c, schemas, v, depth)
      decreases MAX_REF_DEPTH - depth, 2, 0
    {
      hide Passes;
      matches := 0;
      var i := 0;
      assert schemas[0..] == schemas;
      while i < |schemas|
        invariant 0 <= i <= |schemas| && Valid()
        invariant matches + Passing(c, schemas[i..], v, depth) == Passing(c, schemas, v, depth)
      {
        assert schemas[i..][1..] == schemas[i + 1..] && schemas[i..][0] == schemas[i];
        var passes := SilentValid(schemas[i], v);
        if passes { matches := matches + 1; }
        i := i + 1;
      }
    }

    method If(s: Json, v: Json) returns (ok: bool)
      requires Valid()
      modifies this
      ensures Valid() && Found(ok, IfIssues(EarlyOut, c, s, v, old(depth)))
      decreases MAX_REF_DEPTH - depth, 3, 0
    {
      hide Passes, Issues, Keyword;
      ok := true;
      var k := Keyword(s, "if");
      if k.Some? {
        var passes := SilentValid(k.value, v);
        var branch := if passes then Keyword(s, "then") else Keyword(s, "else");
        if branch.Some? { ok := Validate(branch.value, v); }
      }
    }

    method All(schemas: seq<Json>, v: Json) returns (ok: bool)
      requires Valid()
      modifies this
      ensures Valid() && Found(ok, AllIssues(EarlyOut, c, schemas, v, old(depth)))
      decreases MAX_REF_DEPTH - depth, 2
    {
      hide Issues;
      ok := true;
      var i := 0;
      ghost var n: nat := 0;
      assert schemas[0..] == schemas;
      while i < |schemas|
        invariant 0 <= i <= |schemas| && Valid() && SoFar(ok, n)
        invariant n + AllIssues(EarlyOut, c, schemas[i..], v, depth) == AllIssues(EarlyOut, c, schemas, v, depth)
      {
        assert schemas[i..][1..] == schemas[i + 1..] && schemas[i..][0] == schemas[i];
        var one := Validate(schemas[i], v);
        n := n + Issues(EarlyOut, c, schemas[i], v, depth);
        ok := ok && one;
        if !one && !reporting { return; }
        i := i + 1;
      }
    }

    /** The keywords that belong to the kind of the value. */
    method Kind(s: Json, v: Json) returns (ok: bool)
      requires Valid()
      modifies this
      ensures Valid() && Found(ok, KindIssues(EarlyOut, c, s, v, old(depth)))
      decreases MAX_REF_DEPTH - depth, 3
    {
      hide NumberIssues, StringIssues, RequiredIssues, SizeIssues, MemberIssues, ItemCountIssues, PrefixIssues, RestIssues,
           PassesContains, ArrayRules;
      match v {
        case Num(x) => ok := NumberChecks(s, x);
        case Str(t) => ok := StringChecks(s, t);
        case Obj(ms) => ok := ObjectChecks(s, ms);
        case Arr(items) => ok := ArrayChecks(s, items);
        case _ => ok := true;
      }
    }

    method NumberChecks(s: Json, x: Number) returns (ok: bool)
      requires Valid()
      modifies this`total, this`stored
      ensures Valid() && Found(ok, NumberIssues(s, x, c.leaf))
    {
      hide BelowFails, AboveFails, MultipleFails, TrueKeyword;
      ok := Check(BelowFails(s, "minimum", TrueKeyword(s, "exclusiveMinimum"), x, c.leaf), "minimum");
      if !ok && !reporting { return; }
      var one := Check(AboveFails(s, "maximum", TrueKeyword(s, "exclusiveMaximum"), x, c.leaf), "maximum");
      ok := ok && one;
      if !ok && !reporting { return; }
      one := Check(BelowFails(s, "exclusiveMinimum", true, x, c.leaf), "exclusiveMinimum");
      ok := ok && one;
      if !ok && !reporting { return; }
      one := Check(AboveFails(s, "exclusiveMaximum", true, x, c.leaf), "exclusiveMaximum");
      ok := ok && one;
      if !ok && !reporting { return; }
      one := Check(MultipleFails(s, x, c.leaf), "multipleOf");
      ok := ok && one;
    }

    method CountChars(t: Bytes) returns (n: nat)
      ensures n == CharCount(t)
    {
      n := 0;
      var i := 0;
      assert t[0..] == t;
      while i < |t|
        invariant 0 <= i <= |t| && n + CharCount(t[i..]) == CharCount(t)
      {
        assert t[i..][1..] == t[i + 1..] && t[i..][0] == t[i];
        if !(0x80 <= t[i] <= 0xBF) { n := n + 1; }
        i := i + 1;
      }
    }

    method StringChecks(s: Json, t: Bytes) returns (ok: bool)
      requires Valid()
      modifies this`total, this`stored
      ensures Valid() && Found(ok, StringIssues(s, t, c.leaf))
    {
      hide BelowFails, AboveFails, FormatFails;
      var len := CountChars(t);
      ok := Check(BelowFails(s, "minLength", false, Int(len), c.leaf), "minLength");
      if !ok && !reporting { return; }
      var one := Check(AboveFails(s, "maxLength", false, Int(len), c.leaf), "maxLength");
      ok := ok && one;
      if !ok && !reporting { return; }
      one := Check(FormatFails(s, t, c.leaf), "format");
      ok := ok && one;
    }

    method Sizes(s: Json, least: string, most: string, n: nat) returns (ok: bool)
      requires Valid()
      modifies this`total, this`stored
      ensures Valid() && Found(ok, SizeIssues(s, least, most, n, c.leaf))
    {
      hide BelowFails, AboveFails;
      ok := Check(BelowFails(s, least, false, Int(n), c.leaf), least);
      var one := Check(AboveFails(s, most, false, Int(n), c.leaf), most);
      ok := ok && one;
    }

    method Required(s: Json, ms: seq<Member>) returns (ok: bool)
      requires Valid()
      modifies this`total, this`stored
      ensures Valid() && Found(ok, RequiredIssues(s, ms))
    {
      hide HasKey, Keyword;
      ok := true;
      match Keyword(s, "required") {
        case Some(Arr(names)) =>
          var i := 0;
          ghost var n: nat := 0;
          assert names[0..] == names;
          while i < |names|
            invariant 0 <= i <= |names| && Valid() && SoFar(ok, n)
            invariant n + MissingNames(names[i..], ms) == MissingNames(names, ms)
          {
            assert names[i..][1..] == names[i + 1..] && names[i..][0] == names[i];
            var fails := names[i].Str? && !HasKey(ms, names[i].s);
            var one := Check(fails, "required");
            n := n + Count(fails);
            ok := ok && one;
            if !one && !reporting { return; }
            i := i + 1;
          }
        case _ =>
      }
    }

    method ObjectChecks(s: Json, ms: seq<Member>) returns (ok: bool)
      requires Valid()
      modifies this
      ensures Valid()
      ensures Found(ok, RequiredIssues(s, ms) + SizeIssues(s, "minProperties", "maxProperties", |ms|, c.leaf)
                        + MemberIssues(EarlyOut, c, s, ms, old(depth)))
      decreases MAX_REF_DEPTH - depth, 2, 1
    {
      hide RequiredIssues, SizeIssues, MemberIssues;
      ok := Required(s, ms);
      if !ok && !reporting { return; }
      var sizes := Sizes(s, "minProperties", "maxProperties", |ms|);
      var members := Members(s, ms);
      ok := ok && sizes && members;
    }

    method Members(s: Json, ms: seq<Member>) returns (ok: bool)
      requires Valid()
      modifies this
      ensures Valid() && Found(ok, MemberIssues(EarlyOut, c, s, ms, old(depth)))
      decreases MAX_REF_DEPTH - depth, 2, 0
    {
      hide Issues, PropertyRule;
      ok := true;
      var i := 0;
      ghost var n: nat := 0;
      assert ms[0..] == ms;
      while i < |ms|
        invariant 0 <= i <= |ms| && Valid() && SoFar(ok, n)
        invariant n + MemberIssues(EarlyOut, c, s, ms[i..], depth) == MemberIssues(EarlyOut, c, s, ms, depth)
      {
        assert ms[i..][1..] == ms[i + 1..] && ms[i..][0] == ms[i];
        var rule := PropertyRule(s, ms[i].key);
        var one := true;
        match rule {
          case Under(t) =>
            one := Validate(t, ms[i].value);
            n := n + Issues(EarlyOut, c, t, ms[i].value, depth);
          case Forbidden =>
            one := Check(true, "additionalProperties");
            n := n + 1;
          case NoRule =>
        }
        ok := ok && one;
        if !one && !reporting { return; }
        i := i + 1;
      }
    }

    method ArrayChecks(s: Json, items: seq<Json>) returns (ok: bool)
      requires Valid()
      modifies this
      ensures Valid()
      ensures Found(ok, ItemCountIssues(EarlyOut, s, items, c.leaf)
                        + PrefixIssues(EarlyOut, c, ArrayRules(s).prefix, items, old(depth))
                        + (if ArrayRules(s).rest.Some?
                           then RestIssues(EarlyOut, c, ArrayRules(s).rest.value, items, |ArrayRules(s).prefix|, old(depth))
                           else 0)
                        + Count(!PassesContains(c, s, items, old(depth))))
      decreases MAX_REF_DEPTH - depth, 2, 1
    {
      hide ItemCountIssues, PrefixIssues, RestIssues, ArrayRules, PassesContains;
      var r := ArrayRules(s);
      ok := ItemCounts(s, items);
      ghost var failed := !ok;
      var one := Prefix(r.prefix, items);
      ok := ok && one;
      if !one && !reporting { return; }
      if r.rest.Some? {
        one := Rest(r.rest.value, items, |r.prefix|);
        ok := ok && one;
        if !one && !reporting { return; }
      }
      var contained := Contains(s, items);
      one := Check(!contained, "contains");
      ok := ok && one;
    }

    method HasRepeats(items: seq<Json>) returns (found: bool)
      ensures found == Repeats(items)
    {
      hide Equals;
      found := false;
      var i := 0;
      while i < |items| && !found
        invariant 0 <= i <= |items|
        invariant found <==> exists a, b :: 0 <= a < i && a < b < |items| && Equals(items[a], items[b])
      {
        var j := i + 1;
        while j < |items| && !found
          invariant i < j <= |items|
          invariant found ==> exists b :: i < b < |items| && Equals(items[i], items[b])
          invariant !found ==> forall b :: i < b < j ==> !Equals(items[i], items[b])
        {
          found := PatchLoops.EqualsTree(items[i], items[j]);
          j := j + 1;
        }
        i := i + 1;
      }
    }

    method ItemCounts(s: Json, items: seq<Json>) returns (ok: bool)
      requires Valid()
      modifies this`total, this`stored
      ensures Valid() && Found(ok, ItemCountIssues(EarlyOut, s, items, c.leaf))
    {
      hide SizeIssues, TrueKeyword, Repeats;
      ok := Sizes(s, "minItems", "maxItems", |items|);
      if ok && TrueKeyword(s, "uniqueItems") {
        var repeats := HasRepeats(items);
        ok := Check(repeats, "uniqueItems");
      }
    }

    method Prefix(schemas: seq<Json>, items: seq<Json>) returns (ok: bool)
      requires Valid()
      modifies this
      ensures Valid() && Found(ok, PrefixIssues(EarlyOut, c, schemas, items, old(depth)))
      decreases MAX_REF_DEPTH - depth, 2, 0
    {
      hide Issues;
      ok := true;
      var i := 0;
      ghost var n: nat := 0;
      assert schemas[0..] == schemas && items[0..] == items;
      while i < |items| && i < |schemas|
        invariant 0 <= i <= |items| && i <= |schemas| && Valid() && SoFar(ok, n)
        invariant n + PrefixIssues(EarlyOut, c, schemas[i..], items[i..], depth)
               == PrefixIssues(EarlyOut, c, schemas, items, depth)
      {
        assert schemas[i..][1..] == schemas[i + 1..] && schemas[i..][0] == schemas[i];
        assert items[i..][1..] == items[i + 1..] && items[i..][0] == items[i];
        var one := Validate(schemas[i], items[i]);
        n := n + Issues(EarlyOut, c, schemas[i], items[i], depth);
        ok := ok && one;
        if !one && !reporting { return; }
        i := i + 1;
      }
    }

    method Rest(s: Json, items: seq<Json>, start: nat) returns (ok: bool)
      requires Valid()
      modifies this
      ensures Valid() && Found(ok, RestIssues(EarlyOut, c, s, items, start, old(depth)))
      decreases MAX_REF_DEPTH - depth, 2, 0
    {
      hide Issues;
      ok := true;
      var i := start;
      ghost var n: nat := 0;
      while i < |items|
        invariant start <= i && Valid() && SoFar(ok, n)
        invariant n + RestIssues(EarlyOut, c, s, items, i, depth) == RestIssues(EarlyOut, c, s, items, start, depth)
      {
        var one := Validate(s, items[i]);
        n := n + Issues(EarlyOut, c, s, items[i], depth);
        ok := ok && one;
        if !one && !reporting { return; }
        i := i + 1;
      }
    }

    method Contains(s: Json, items: seq<Json>) returns (found: bool)
      requires Valid()
      ensures found == PassesContains(c, s, items, depth)
      decreases MAX_REF_DEPTH - depth, 2, 0
    {
      hide Passes, Keyword;
      var k := Keyword(s, "contains");
      if k.None? { return true; }
      found := false;
      var i := 0;
      while i < |items| && !found
        invariant 0 <= i <= |items| && Valid()
        invariant found <==> exists j :: 0 <= j < i && Passes(c, k.value, items[j], depth)
      {
        found := SilentValid(k.value, items[i]);
        i := i + 1;
      }
    }
  }

  /** Validates, collecting a report or stopping at the first failure: the verdict is the same. */
  method ValidateSchema(schema: Json, instance: Json, leaf: Leaf, reporting: bool)
    returns (ok: bool, total: nat, stored: seq<string>)
    ensures ok == Passes(Ctx(schema, leaf), schema, instance, 0)
    ensures reporting ==> total == Issues(EarlyOut, Ctx(schema, leaf), schema, instance, 0) && (ok <==> total == 0)
    ensures |stored| == if total < MAX_ISSUES then total else MAX_ISSUES
  {
    hide Issues, Passes;
    var c := new Validator(Ctx(schema, leaf), reporting, 0);
    ok := c.Validate(schema, instance);
    VerdictIsNoIssue(EarlyOut, Ctx(schema, leaf), schema, instance, 0);
    total, stored := c.total, c.stored;
  }
}
