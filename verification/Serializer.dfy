/** The serializer in its own form: a recursion over the tree in which every step appends to a buffer. */
module Serializer {
  import opened Bytes
  import opened JsonValue
  import opened SerializerSpec
  import opened SerializerRoundTrip
  import opened Buf

  class Writer {
    const b: Buffer
    const o: PrintOptions

    constructor (b: Buffer, o: PrintOptions)
      ensures this.b == b && this.o == o
    {
      this.b, this.o := b, o;
    }

    method WriteNewLine(depth: nat)
      requires b.Valid()
      modifies b, b.data
      ensures b.Valid() && b.Contents() == old(b.Contents()) + NewLine(o, depth)
      ensures b.data == old(b.data) || fresh(b.data)
    {
      if o.indent == 0 {
        assert b.Contents() + [] == b.Contents();
        return;
      }
      b.PutC(NEWLINE);
      b.Append(Spaces(depth * o.indent));
      assert old(b.Contents()) + [NEWLINE] + Spaces(depth * o.indent) == old(b.Contents()) + ([NEWLINE] + Spaces(depth * o.indent));
    }

    /** Writes a tree; with sort_keys the members of every object in it come out in key order. */
    method WriteValue(v: Json, depth: nat)
      requires b.Valid()
      modifies b, b.data
      ensures b.Valid() && b.Contents() == old(b.Contents()) + Print(Arranged(v, o.sortKeys), o, depth)
      ensures b.data == old(b.data) || fresh(b.data)
      decreases v, 2
    {
      match v {
        case Null => b.Append(NULL_WORD);
        case Bool(x) => b.Append(if x then TRUE_WORD else FALSE_WORD);
        case Num(n) => b.JsonNumber(n);
        case Str(s) => b.JsonString(s, o.escapeUnicode);
        case Arr(items) => WriteArray(items, depth);
        case Obj(ms) => WriteObject(ms, depth);
      }
    }

    method WriteArray(items: seq<Json>, depth: nat)
      requires b.Valid()
      modifies b, b.data
      ensures b.Valid() && b.Contents() == old(b.Contents()) + Print(Arranged(Arr(items), o.sortKeys), o, depth)
      ensures b.data == old(b.data) || fresh(b.data)
      decreases items, 1
    {
      hide *;
      ghost var done := ArrangedItems(items, o.sortKeys);
      ArrangedArray(items, o, depth);
      if |items| == 0 {
        b.Append([OPEN_BRACKET, CLOSE_BRACKET]);
        return;
      }
      b.PutC(OPEN_BRACKET);
      ghost var start := b.Contents();
      var i := 0;
      RestOfAll(done, o, depth + 1);
      while i < |items|
        invariant 0 <= i <= |items| && b.Valid() && (b.data == old(b.data) || fresh(b.data))
        invariant b.Contents() + Rest(done, i, o, depth + 1) == start + PrintItems(done, o, depth + 1)
      {
        NextItem(b.Contents(), done, i, o, depth + 1);
        if i > 0 { b.PutC(COMMA); }
        WriteNewLine(depth + 1);
        ArrangedAt(items, i, o.sortKeys);
        WriteValue(items[i], depth + 1);
        i := i + 1;
      }
      NothingLeft(b.Contents(), done, o, depth + 1);
      WriteNewLine(depth);
      b.PutC(CLOSE_BRACKET);
      Closed(old(b.Contents()), OPEN_BRACKET, PrintItems(done, o, depth + 1), NewLine(o, depth), CLOSE_BRACKET);
    }

    /** What is still to be written when i items are: a comma, unless nothing is written yet, and the others. */
    static ghost function Rest(items: seq<Json>, i: nat, o: PrintOptions, depth: nat): Bytes
      requires i <= |items|
    {
      if i == |items| then []
      else (if i == 0 then [] else [COMMA]) + PrintItems(items[i..], o, depth)
    }

    static lemma RestOfAll(items: seq<Json>, o: PrintOptions, depth: nat)
      requires items != []
      ensures Rest(items, 0, o, depth) == PrintItems(items, o, depth)
    {
      assert items[0..] == items;
      hide PrintItems;
      assert [] + PrintItems(items, o, depth) == PrintItems(items, o, depth);
    }

    static lemma NothingLeft(out: Bytes, items: seq<Json>, o: PrintOptions, depth: nat)
      ensures out + Rest(items, |items|, o, depth) == out
    {
    }

    static lemma NextItem(out: Bytes, items: seq<Json>, i: nat, o: PrintOptions, depth: nat)
      requires i < |items|
      ensures out + Rest(items, i, o, depth)
           == (if i > 0 then out + [COMMA] else out) + NewLine(o, depth) + Print(items[i], o, depth)
              + Rest(items, i + 1, o, depth)
    {
      hide Print, NewLine;
      var n, p := NewLine(o, depth), Print(items[i], o, depth);
      assert items[i..][1..] == items[i + 1..];
      var r := Rest(items, i + 1, o, depth);
      assert PrintItems(items[i..], o, depth) == n + p + r;
      ItemAssociates(out, if i == 0 then [] else [COMMA], n, p, r);
      assert out + [] == out;
    }

    static lemma ItemAssociates(out: Bytes, c: Bytes, n: Bytes, p: Bytes, r: Bytes)
      ensures out + (c + (n + p + r)) == out + c + n + p + r
    {
    }

    static lemma Closed(start: Bytes, open: byte, body: Bytes, nl: Bytes, shut: byte)
      ensures start + [open] + body + nl + [shut] == start + ([open] + body + (nl + [shut]))
    {
    }

    static lemma ArrangedArray(items: seq<Json>, o: PrintOptions, depth: nat)
      ensures Print(Arranged(Arr(items), o.sortKeys), o, depth)
           == if |items| == 0 then [OPEN_BRACKET, CLOSE_BRACKET]
              else [OPEN_BRACKET] + PrintItems(ArrangedItems(items, o.sortKeys), o, depth + 1)
                   + (NewLine(o, depth) + [CLOSE_BRACKET])
    {
      hide PrintItems, NewLine;
    }

    static lemma ArrangedAt(items: seq<Json>, i: nat, sort: bool)
      requires i < |items|
      ensures ArrangedItems(items, sort)[i] == Arranged(items[i], sort)
    {
      ArrangedEachItem(items, sort);
    }

    /** Writes one member: its line, its key, the separator and its value. */
    method WriteMember(m: Member, depth: nat)
      requires b.Valid()
      modifies b, b.data
      ensures b.Valid()
      ensures b.Contents() == old(b.Contents()) + PrintMember(Member(m.key, Arranged(m.value, o.sortKeys)), o, depth)
      ensures b.data == old(b.data) || fresh(b.data)
      decreases m.value, 3
    {
      ghost var done := Member(m.key, Arranged(m.value, o.sortKeys));
      PrintedMember(done, o, depth);
      hide *;
      WriteNewLine(depth);
      b.JsonString(m.key, o.escapeUnicode);
      if o.indent > 0 { b.Append([COLON, SPACE]); } else { b.PutC(COLON); }
      assert b.Contents() == old(b.Contents()) + NewLine(o, depth) + PrintString(m.key, o.escapeUnicode) + KeySeparator(o) by {
        Separator(o);
      }
      WriteValue(m.value, depth);
      MemberAssociates(old(b.Contents()), NewLine(o, depth), PrintString(m.key, o.escapeUnicode), KeySeparator(o),
                       Print(done.value, o, depth));
    }

    static lemma Separator(o: PrintOptions)
      ensures KeySeparator(o) == if o.indent > 0 then [COLON, SPACE] else [COLON]
    {
    }

    static lemma MemberAssociates(a: Bytes, n: Bytes, k: Bytes, c: Bytes, p: Bytes)
      ensures a + n + k + c + p == a + (n + k + (c + p))
    {
      assert n + k + (c + p) == n + k + c + p;
    }

    method WriteObject(ms: seq<Member>, depth: nat)
      requires b.Valid()
      modifies b, b.data
      ensures b.Valid() && b.Contents() == old(b.Contents()) + Print(Arranged(Obj(ms), o.sortKeys), o, depth)
      ensures b.data == old(b.data) || fresh(b.data)
      decreases ms, 1
    {
      hide *;
      var sorted := Arrange(ms, o.sortKeys); // the pairs in writing order
      ghost var done := ArrangedMembers(sorted, o.sortKeys);
      ArrangedObject(ms, o, depth);
      if |ms| == 0 {
        b.Append([OPEN_BRACE, CLOSE_BRACE]);
        return;
      }
      b.PutC(OPEN_BRACE);
      ghost var start := b.Contents();
      var i := 0;
      MembersLeftAll(done, o, depth + 1);
      while i < |sorted|
        invariant 0 <= i <= |sorted| && b.Valid() && (b.data == old(b.data) || fresh(b.data))
        invariant b.Contents() + MembersLeft(done, i, o, depth + 1) == start + PrintMembers(done, o, depth + 1)
      {
        NextMember(b.Contents(), done, i, o, depth + 1);
        if i > 0 { b.PutC(COMMA); }
        ArrangedMemberAt(sorted, i, o.sortKeys);
        SortedIsSmaller(ms, i, o.sortKeys);
        WriteMember(sorted[i], depth + 1);
        i := i + 1;
      }
      NoMembersLeft(b.Contents(), done, o, depth + 1);
      WriteNewLine(depth);
      b.PutC(CLOSE_BRACE);
      Closed(old(b.Contents()), OPEN_BRACE, PrintMembers(done, o, depth + 1), NewLine(o, depth), CLOSE_BRACE);
    }

    static ghost function MembersLeft(ms: seq<Member>, i: nat, o: PrintOptions, depth: nat): Bytes
      requires i <= |ms|
    {
      if i == |ms| then []
      else (if i == 0 then [] else [COMMA]) + PrintMembers(ms[i..], o, depth)
    }

    static lemma MembersLeftAll(ms: seq<Member>, o: PrintOptions, depth: nat)
      requires ms != []
      ensures MembersLeft(ms, 0, o, depth) == PrintMembers(ms, o, depth)
    {
      assert ms[0..] == ms;
      hide PrintMembers;
      assert [] + PrintMembers(ms, o, depth) == PrintMembers(ms, o, depth);
    }

    static lemma NoMembersLeft(out: Bytes, ms: seq<Member>, o: PrintOptions, depth: nat)
      ensures out + MembersLeft(ms, |ms|, o, depth) == out
    {
    }

    static lemma NextMember(out: Bytes, ms: seq<Member>, i: nat, o: PrintOptions, depth: nat)
      requires i < |ms|
      ensures out + MembersLeft(ms, i, o, depth)
           == (if i > 0 then out + [COMMA] else out) + PrintMember(ms[i], o, depth) + MembersLeft(ms, i + 1, o, depth)
    {
      hide PrintMember;
      var p, r := PrintMember(ms[i], o, depth), MembersLeft(ms, i + 1, o, depth);
      assert ms[i..][1..] == ms[i + 1..];
      assert PrintMembers(ms[i..], o, depth) == p + r;
      ItemAssociates(out, if i == 0 then [] else [COMMA], [], p, r);
      assert [] + p + r == p + r;
      assert out + [] == out && out + [COMMA] + [] == out + [COMMA];
    }

    static lemma ArrangedMemberAt(ms: seq<Member>, i: nat, sort: bool)
      requires i < |ms|
      ensures ArrangedMembers(ms, sort)[i] == Member(ms[i].key, Arranged(ms[i].value, sort))
    {
      ArrangedEach(ms, sort);
    }

    /** Arranging the values and sorting the members commute. */
    static lemma {:induction false} InsertCommutes(m: Member, ms: seq<Member>, sort: bool)
      ensures ArrangedMembers(InsertByKey(m, ms), sort)
           == InsertByKey(Member(m.key, Arranged(m.value, sort)), ArrangedMembers(ms, sort))
      decreases |ms|
    {
      hide Arranged;
      if ms == [] || KeyLess(m.key, ms[0].key) {
        assert ([m] + ms)[1..] == ms;
      } else {
        InsertCommutes(m, ms[1..], sort);
        assert ([ms[0]] + InsertByKey(m, ms[1..]))[1..] == InsertByKey(m, ms[1..]);
        var done := ArrangedMembers(ms, sort);
        assert done[1..] == ArrangedMembers(ms[1..], sort);
      }
    }

    static lemma {:induction false} FrontArranged(ms: seq<Member>, sort: bool)
      requires ms != []
      ensures ArrangedMembers(ms, sort)[..|ms| - 1] == ArrangedMembers(ms[..|ms| - 1], sort)
    {
      ArrangedEach(ms, sort);
      ArrangedEach(ms[..|ms| - 1], sort);
    }

    static lemma {:induction false} SortCommutes(ms: seq<Member>, sort: bool)
      ensures ArrangedMembers(SortByKey(ms), sort) == SortByKey(ArrangedMembers(ms, sort))
      decreases |ms|
    {
      hide Arranged;
      if ms != [] {
        SortCommutes(ms[..|ms| - 1], sort);
        FrontArranged(ms, sort);
        ArrangedEach(ms, sort);
        InsertCommutes(ms[|ms| - 1], SortByKey(ms[..|ms| - 1]), sort);
      }
    }

    static lemma ArrangedObject(ms: seq<Member>, o: PrintOptions, depth: nat)
      ensures |Arrange(ms, o.sortKeys)| == |ms|
      ensures Print(Arranged(Obj(ms), o.sortKeys), o, depth)
           == if |ms| == 0 then [OPEN_BRACE, CLOSE_BRACE]
              else [OPEN_BRACE] + PrintMembers(ArrangedMembers(Arrange(ms, o.sortKeys), o.sortKeys), o, depth + 1)
                   + (NewLine(o, depth) + [CLOSE_BRACE])
    {
      SortCommutes(ms, o.sortKeys);
      SortsInKeyOrder(ms);
      assert |multiset(SortByKey(ms))| == |multiset(ms)|;
      hide PrintMembers, NewLine, SortByKey;
    }

    /** A sorted member is one of the members. */
    static lemma SortedIsSmaller(ms: seq<Member>, i: nat, sort: bool)
      requires i < |Arrange(ms, sort)|
      ensures Arrange(ms, sort)[i] in ms
    {
      ArrangeMembership(ms, sort);
      assert Arrange(ms, sort)[i] in Arrange(ms, sort);
    }
  }

  method SerializeTree(v: Json, o: PrintOptions) returns (text: Bytes)
    ensures text == Serialize(v, o)
  {
    var b := new Buffer(256);
    var w := new Writer(b, o);
    w.WriteValue(v, 0);
    text := b.data[..b.len];
  }
}
