/** Walking a view: the tree under a token, its items, its members. */
module ViewTree {
  import opened Bytes
  import opened Options
  import opened JsonValue
  import opened JsonOps
  import opened Scan
  import opened ViewSpec
  import opened ViewAgreement

  /** The tree under a token. */
  ghost function Tree(inp: Bytes, T: seq<Tok>, t: nat): (v: Json)
    requires IsRoot(inp, T, t)
    ensures Denotes(inp, T, t, v)
  {
    var v :| Denotes(inp, T, t, v);
    v
  }

  lemma TreeIs(inp: Bytes, T: seq<Tok>, t: nat, v: Json)
    requires Denotes(inp, T, t, v)
    ensures IsRoot(inp, T, t) && Tree(inp, T, t) == v
  {
    DenotesOne(inp, T, t, v, Tree(inp, T, t));
  }

  /** Every token is the root of a subtree. */
  ghost predicate Indexed(inp: Bytes, T: seq<Tok>) { Rooted(inp, T, 0, |T|) }

  /** The tree with the members of each object set one by one, so that a repeated key keeps its last value. */
  function Merged(v: Json): Json
    decreases v, 1
  {
    match v
    case Arr(items) => Arr(MergedItems(items))
    case Obj(ms) => Obj(MergedMembers([], ms))
    case _ => v
  }

  function MergedItems(items: seq<Json>): (r: seq<Json>)
    ensures |r| == |items| && forall i :: 0 <= i < |items| ==> r[i] == Merged(items[i])
    decreases items, 0
  {
    if items == [] then [] else [Merged(items[0])] + MergedItems(items[1..])
  }

  function MergedMembers(done: seq<Member>, ms: seq<Member>): seq<Member>
    decreases ms, 0
  {
    if ms == [] then done else MergedMembers(SetMember(done, ms[0].key, Merged(ms[0].value)), ms[1..])
  }

  /** Without repeated keys nothing is merged. */
  lemma {:induction false} MergedUnique(v: Json)
    requires Unique(v)
    ensures Merged(v) == v
    decreases v, 1
  {
    match v
    case Arr(items) =>
      forall i | 0 <= i < |items| ensures MergedItems(items)[i] == items[i] { MergedUnique(items[i]); }
    case Obj(ms) =>
      assert [] + ms == ms;
      MembersUnique([], ms);
    case _ =>
  }

  lemma {:induction false} MembersUnique(done: seq<Member>, ms: seq<Member>)
    requires UniqueMembers(done + ms) && forall i :: 0 <= i < |ms| ==> Unique(ms[i].value)
    ensures MergedMembers(done, ms) == done + ms
    decreases ms, 0
  {
    hide Unique, UniqueMembers, SetMember;
    if ms == [] {
      assert done + ms == done;
    } else {
      MergedUnique(ms[0].value);
      SetsFresh(done, ms);
      MembersUnique(done + [ms[0]], ms[1..]);
    }
  }

  lemma SetsFresh(done: seq<Member>, ms: seq<Member>)
    requires ms != [] && UniqueMembers(done + ms)
    ensures SetMember(done, ms[0].key, ms[0].value) == done + [ms[0]]
    ensures done + [ms[0]] + ms[1..] == done + ms
  {
    forall i | 0 <= i < |done| ensures done[i].key != ms[0].key {
      assert (done + ms)[i] == done[i] && (done + ms)[|done|] == ms[0];
    }
  }

  /** Where the items from the i-th on begin. */
  lemma ItemsFirst(inp: Bytes, T: seq<Tok>, c: nat, items: seq<Json>, end: nat)
    requires ItemsAt(inp, T, c, items, end) && items != []
    ensures c < |T| && Denotes(inp, T, c, items[0]) && ItemsAt(inp, T, T[c].next, items[1..], end)
  {
    hide Denotes;
  }

  lemma MembersFirst(inp: Bytes, T: seq<Tok>, c: nat, ms: seq<Member>, end: nat)
    requires MembersAt(inp, T, c, ms, end) && ms != []
    ensures c + 1 < |T| && IsString(inp, T[c], ms[0].key) && Denotes(inp, T, c + 1, ms[0].value)
    ensures MembersAt(inp, T, T[c + 1].next, ms[1..], end)
  {
    hide Denotes, IsString;
  }

  lemma ArrayFacts(inp: Bytes, T: seq<Tok>, t: nat)
    requires t < |T| && IsRoot(inp, T, t)
    ensures (T[t].kind == ArrayTok) == Tree(inp, T, t).Arr?
    ensures T[t].kind == ArrayTok ==>
              T[t].size == |Tree(inp, T, t).items| && ItemsAt(inp, T, t + 1, Tree(inp, T, t).items, T[t].next)
    ensures (T[t].kind == ObjectTok) == Tree(inp, T, t).Obj?
    ensures T[t].kind == ObjectTok ==>
              T[t].size == |Tree(inp, T, t).members| && MembersAt(inp, T, t + 1, Tree(inp, T, t).members, T[t].next)
  {
    hide ItemsAt, MembersAt, NumberValue, DecodeSpan;
  }
}

/** The navigation of the view in its own form: loops over the next links. */
module ViewNavigation {
  import opened Bytes
  import opened Texts
  import opened Options
  import opened JsonValue
  import opened JsonOps
  import opened Scan
  import opened ParserSpec
  import opened ViewSpec
  import opened ViewAgreement
  import opened ViewTree
  import View

  class TokenView {
    const json: Bytes
    const tokens: seq<Tok> // what the indexing left; navigation only reads it

    ghost predicate Valid() { Indexed(json, tokens) }

    /** The tree under token t. */
    ghost function TreeAt(t: nat): Json
      requires Valid() && t < |tokens|
    {
      Tree(json, tokens, t)
    }

    constructor (json: Bytes, tokens: seq<Tok>)
      requires Indexed(json, tokens)
      ensures Valid() && this.json == json && this.tokens == tokens
    {
      this.json, this.tokens := json, tokens;
    }

    /** Decodes the text of a string token. */
    method StringOf(t: nat) returns (s: Bytes)
      requires Valid()
      ensures t < |tokens| && TreeAt(t).Str? ==> s == TreeAt(t).s
      ensures t < |tokens| && tokens[t].kind == StringTok ==> IsString(json, tokens[t], s)
      ensures t >= |tokens| || tokens[t].kind != StringTok ==> s == []
    {
      if t >= |tokens| || tokens[t].kind != StringTok {
        KindOfString(t);
        return [];
      }
      KindOfString(t);
      hide DecodeSpan, Tree;
      s := DecodeRange(tokens[t].start, tokens[t].end);
    }

    /** Decodes the escapes of a range; a range that was indexed as a string holds no bad one. */
    method DecodeRange(start: nat, e: nat) returns (s: Bytes)
      requires start <= e <= |json|
      ensures s == DecodeSpan(json, start, e)
    {
      hide *;
      var x := start;
      s := [];
      ghost var goal := DecodeSpan(json, x, e);
      NothingBefore(goal);
      while x < e
        invariant x <= e <= |json| && s + DecodeSpan(json, x, e) == goal
        decreases e - x
      {
        if json[x] == BACKSLASH {
          var d := DecodeEscape(json, x, e);
          BadSpan(x, e);
          if d.BadEscape? {
            NothingMore(s);
            return s;
          }
          EscapeSpan(json, x, e);
          Associates(s, d.out, DecodeSpan(json, x + d.used, e));
          s := s + d.out;
          x := x + d.used;
        } else {
          ByteSpan(x, e);
          Associates(s, [json[x]], DecodeSpan(json, x + 1, e));
          s := s + [json[x]];
          x := x + 1;
        }
      }
      EmptySpan(json, e);
      NothingMore(s);
    }

    lemma BadSpan(x: nat, e: nat)
      requires x < e <= |json| && json[x] == BACKSLASH
      ensures DecodeEscape(json, x, e).BadEscape? ==> DecodeSpan(json, x, e) == []
    {
    }

    lemma ByteSpan(x: nat, e: nat)
      requires x < e <= |json| && json[x] != BACKSLASH
      ensures DecodeSpan(json, x, e) == [json[x]] + DecodeSpan(json, x + 1, e)
    {
    }

    lemma KindOfString(t: nat)
      requires Valid()
      ensures t < |tokens| ==> (tokens[t].kind == StringTok <==> TreeAt(t).Str?)
      ensures t < |tokens| && TreeAt(t).Str? ==>
                tokens[t].start <= tokens[t].end <= |json| && IsString(json, tokens[t], TreeAt(t).s)
    {
      if t < |tokens| { assert IsRoot(json, tokens, t); }
    }

    /** Whether a string token stands for s: raw when it holds no escape, decoded otherwise. */
    method Eq(t: nat, s: Bytes) returns (eq: bool)
      requires Valid()
      ensures eq == (t < |tokens| && TreeAt(t).Str? && TreeAt(t).s == s)
      ensures t < |tokens| ==> forall key :: IsString(json, tokens[t], key) ==> eq == (key == s)
    {
      KindOfString(t);
      hide Tree, DecodeSpan;
      if t >= |tokens| || tokens[t].kind != StringTok { return false; }
      if !tokens[t].escaped {
        eq := json[tokens[t].start..tokens[t].end] == s;
      } else {
        var got := StringOf(t);
        eq := got == s;
      }
    }

    /** The i-th item of an array token, by following i next links. */
    method Index(t: nat, i: nat) returns (item: Option<nat>)
      requires Valid()
      ensures item.Some? == (t < |tokens| && TreeAt(t).Arr? && i < |TreeAt(t).items|)
      ensures item.Some? ==> item.value < |tokens| && TreeAt(item.value) == TreeAt(t).items[i]
    {
      hide Denotes, ItemsAt;
      if t < |tokens| {
        assert IsRoot(json, tokens, t);
        ArrayFacts(json, tokens, t);
      }
      if t >= |tokens| || tokens[t].kind != ArrayTok || i >= tokens[t].size { return None; }
      ghost var items := TreeAt(t).items;
      assert items[0..] == items;
      var c: nat, k: nat := t + 1, 0;
      while k < i
        invariant 0 <= k <= i && ItemsAt(json, tokens, c, items[k..], tokens[t].next)
      {
        ItemsFirst(json, tokens, c, items[k..], tokens[t].next);
        assert items[k..][1..] == items[k + 1..];
        c := tokens[c].next;
        k := k + 1;
      }
      ItemsFirst(json, tokens, c, items[k..], tokens[t].next);
      TreeIs(json, tokens, c, items[i]);
      return Some(c);
    }

    /** The value of the first member with this key. */
    method Find(t: nat, key: Bytes) returns (val: Option<nat>)
      requires Valid()
      ensures val.Some? == (t < |tokens| && TreeAt(t).Obj? && GetMember(TreeAt(t).members, key).Some?)
      ensures val.Some? ==>
                val.value < |tokens| && Some(TreeAt(val.value)) == GetMember(TreeAt(t).members, key)
    {
      hide Denotes, MembersAt, IsString;
      if t < |tokens| {
        assert IsRoot(json, tokens, t);
        ArrayFacts(json, tokens, t);
      }
      if t >= |tokens| || tokens[t].kind != ObjectTok { return None; }
      ghost var ms := TreeAt(t).members;
      assert ms[0..] == ms;
      var c: nat, k: nat := t + 1, 0;
      while k < tokens[t].size
        invariant 0 <= k <= |ms| == tokens[t].size && MembersAt(json, tokens, c, ms[k..], tokens[t].next)
        invariant forall j :: 0 <= j < k ==> ms[j].key != key
      {
        MembersFirst(json, tokens, c, ms[k..], tokens[t].next);
        var found := Eq(c, key);
        if found {
          TreeIs(json, tokens, c + 1, ms[k].value);
          FoundHere(ms, k, key);
          return Some(c + 1);
        }
        assert ms[k..][1..] == ms[k + 1..];
        c := tokens[c + 1].next;
        k := k + 1;
      }
      return None;
    }

    static lemma FoundHere(ms: seq<Member>, k: nat, key: Bytes)
      requires k < |ms| && ms[k].key == key && forall j :: 0 <= j < k ==> ms[j].key != key
      ensures GetMember(ms, key) == Some(ms[k].value)
    {
    }

    /** Builds the tree under a token. */
    method ToValue(t: nat) returns (v: Option<Json>)
      requires Valid()
      ensures v == if t < |tokens| then Some(Merged(TreeAt(t))) else None
      decreases |tokens| - t, 1
    {
      if t >= |tokens| { return None; }
      assert IsRoot(json, tokens, t);
      ghost var tree := TreeAt(t);
      hide MergedItems, MergedMembers, ItemsAt, MembersAt;
      ScalarFacts(t);
      match tokens[t].kind {
        case NullTok => v := Some(Null);
        case TrueTok => v := Some(Bool(true));
        case FalseTok => v := Some(Bool(false));
        case NumberTok => v := Some(Num(NumberValue(json[tokens[t].start..tokens[t].end])));
        case StringTok =>
          if !tokens[t].escaped {
            v := Some(Str(json[tokens[t].start..tokens[t].end]));
          } else {
            var s := StringOf(t);
            v := Some(Str(s));
          }
        case ArrayTok =>
          var items := ToItems(t);
          v := Some(Arr(items));
        case ObjectTok =>
          var ms := ToMembers(t);
          v := Some(Obj(ms));
      }
    }

    lemma ScalarFacts(t: nat)
      requires Valid() && t < |tokens|
      ensures match tokens[t].kind
              case NullTok => TreeAt(t) == Null
              case TrueTok => TreeAt(t) == Bool(true)
              case FalseTok => TreeAt(t) == Bool(false)
              case NumberTok =>
                tokens[t].start <= tokens[t].end <= |json|
                && TreeAt(t) == Num(NumberValue(json[tokens[t].start..tokens[t].end]))
              case StringTok =>
                TreeAt(t).Str? && tokens[t].start <= tokens[t].end <= |json|
                && (!tokens[t].escaped ==> TreeAt(t) == Str(json[tokens[t].start..tokens[t].end]))
              case ArrayTok => TreeAt(t).Arr?
              case ObjectTok => TreeAt(t).Obj?
    {
      assert IsRoot(json, tokens, t);
      hide ItemsAt, MembersAt, DecodeSpan, NumberValue;
    }

    method ToItems(t: nat) returns (r: seq<Json>)
      requires Valid() && t < |tokens| && tokens[t].kind == ArrayTok && TreeAt(t).Arr?
      ensures r == MergedItems(TreeAt(t).items)
      decreases |tokens| - t, 0
    {
      hide Denotes, ItemsAt, Merged;
      assert IsRoot(json, tokens, t);
      ArrayFacts(json, tokens, t);
      ghost var items := TreeAt(t).items;
      assert items[0..] == items;
      r := [];
      var c: nat, k: nat := t + 1, 0;
      while k < tokens[t].size
        invariant 0 <= k <= |items| == tokens[t].size && t < c
        invariant ItemsAt(json, tokens, c, items[k..], tokens[t].next)
        invariant |r| == k && forall j :: 0 <= j < k ==> r[j] == Merged(items[j])
      {
        ItemsFirst(json, tokens, c, items[k..], tokens[t].next);
        TreeIs(json, tokens, c, items[k]);
        LinkForward(json, tokens, c, items[k]);
        var item := ToValue(c);
        assert items[k..][1..] == items[k + 1..];
        r := r + [item.value];
        c := tokens[c].next;
        k := k + 1;
      }
      assert r == MergedItems(items);
    }

    static lemma LinkForward(inp: Bytes, T: seq<Tok>, t: nat, v: Json)
      requires Denotes(inp, T, t, v)
      ensures t < |T| && t < T[t].next <= |T|
    {
    }

    method ToMembers(t: nat) returns (r: seq<Member>)
      requires Valid() && t < |tokens| && tokens[t].kind == ObjectTok && TreeAt(t).Obj?
      ensures r == MergedMembers([], TreeAt(t).members)
      decreases |tokens| - t, 0
    {
      hide Denotes, MembersAt, Merged, IsString, SetMember;
      assert IsRoot(json, tokens, t);
      ArrayFacts(json, tokens, t);
      ghost var ms := TreeAt(t).members;
      assert ms[0..] == ms;
      r := [];
      var c: nat, k: nat := t + 1, 0;
      while k < tokens[t].size
        invariant 0 <= k <= |ms| == tokens[t].size && t < c
        invariant MembersAt(json, tokens, c, ms[k..], tokens[t].next)
        invariant MergedMembers(r, ms[k..]) == MergedMembers([], ms)
      {
        MembersFirst(json, tokens, c, ms[k..], tokens[t].next);
        TreeIs(json, tokens, c + 1, ms[k].value);
        LinkForward(json, tokens, c + 1, ms[k].value);
        var key := StringOf(c);
        OneKey(tokens[c], key, ms[k].key);
        var val := ToValue(c + 1);
        assert ms[k..][1..] == ms[k + 1..];
        r := SetMember(r, key, val.value);
        c := tokens[c + 1].next;
        k := k + 1;
      }
    }

    lemma OneKey(t: Tok, a: Bytes, b: Bytes)
      requires IsString(json, t, b)
      ensures t.kind == StringTok && (IsString(json, t, a) ==> a == b)
    {
    }
  }

  /** Indexes a document, in the given array or in one of its own. */
  method ParseView(json: Bytes, maxDepth: nat, given: array?<Tok>) returns (view: Option<TokenView>)
    modifies if given == null then {} else {given}
    ensures view.Some? ==>
              && ReadDocument(json, maxDepth).Some?
              && view.value.Valid() && view.value.json == json && view.value.tokens != []
              && view.value.TreeAt(0) == ReadDocument(json, maxDepth).value
              && |json| <= MAX_LENGTH && (given != null ==> |view.value.tokens| <= given.Length)
              && DocumentTokens(json, maxDepth) == Some(view.value.tokens)
    ensures view.None? ==>
              || ReadDocument(json, maxDepth).None?
              || |json| > MAX_LENGTH
              || (given != null && DocumentTokens(json, maxDepth).Some?
                  && |DocumentTokens(json, maxDepth).value| > given.Length)
  {
    hide ValueTokens, ReadValue, SkipWs, Denotes;
    ViewIsParsing(json, maxDepth);
    if |json| > MAX_LENGTH { return None; }
    var c := new View.Indexer(json, maxDepth, given);
    if |json| >= 3 && json[..3] == BOM { c.pos := 3; }
    var ok := c.ValueTok();
    if !ok { return None; }
    c.SkipSpace();
    if c.pos < |json| { return None; }
    NothingFirst(DocumentTokens(json, maxDepth).value);
    var v := new TokenView(json, c.tokens[..c.count]);
    TreeIs(json, v.tokens, 0, ReadDocument(json, maxDepth).value);
    return Some(v);
  }

  lemma NothingFirst(t: seq<Tok>)
    ensures [] + t == t
  {
  }
}
