/** The MessagePack encoder and decoder in their own form. */
module MsgPack {
  import opened Bytes
  import opened Texts
  import opened Options
  import opened JsonValue
  import opened JsonOps
  import opened ParserSpec
  import opened MsgPackSpec
  import opened Buf
  import SerializerSpec
  import Serializer

  /** Appends the encoding of a tree to a buffer. */
  class Encoder {
    const b: Buffer
    const fc: FloatCodec

    constructor (b: Buffer, fc: FloatCodec)
      ensures this.b == b && this.fc == fc
    {
      this.b, this.fc := b, fc;
    }

    method PutTag(tag: byte)
      requires b.Valid()
      modifies b, b.data
      ensures b.Valid() && b.Contents() == old(b.Contents()) + [tag]
      ensures b.data == old(b.data) || fresh(b.data)
    {
      b.PutC(tag);
    }

    /** Byte i is v shifted right by 8 (count - 1 - i), cut to eight bits. */
    method PutBe(v: nat, count: nat)
      requires b.Valid()
      modifies b, b.data
      ensures b.Valid() && b.Contents() == old(b.Contents()) + BigEndian(v, count)
      ensures b.data == old(b.data) || fresh(b.data)
    {
      var tmp: Bytes, i, rest := [], 0, v;
      assert BigEndian(v, count) + [] == BigEndian(v, count);
      while i < count // from the last byte to the first
        modifies {}
        invariant 0 <= i <= count && BigEndian(rest, count - i) + tmp == BigEndian(v, count)
      {
        Associates(BigEndian(rest / 256, count - i - 1), [rest % 256], tmp);
        tmp := [rest % 256] + tmp;
        rest := rest / 256;
        i := i + 1;
      }
      assert [] + tmp == tmp;
      b.Append(tmp);
    }

    method PutTagged(tag: byte, v: nat, count: nat)
      requires b.Valid()
      modifies b, b.data
      ensures b.Valid() && b.Contents() == old(b.Contents()) + ([tag] + BigEndian(v, count))
      ensures b.data == old(b.data) || fresh(b.data)
    {
      hide *;
      PutTag(tag);
      PutBe(v, count);
      Associates(old(b.Contents()), [tag], BigEndian(v, count));
    }

    method EncodeLength(n: nat, fixBase: byte, fixMax: nat, t8: byte, t16: byte, t32: byte)
      requires b.Valid() && 0 < fixBase && fixBase + fixMax < 256
      modifies b, b.data
      ensures b.Valid() && b.Contents() == old(b.Contents()) + EncodeLen(n, fixBase, fixMax, t8, t16, t32)
      ensures b.data == old(b.data) || fresh(b.data)
    {
      hide BigEndian;
      if n <= fixMax { PutTag(fixBase + n); }
      else if t8 != 0 && n <= 0xFF { PutTagged(t8, n, 1); }
      else if n <= 0xFFFF { PutTagged(t16, n, 2); }
      else { PutTagged(t32, n, 4); }
    }

    method EncodeNum(n: Number)
      requires b.Valid()
      modifies b, b.data
      ensures b.Valid() && b.Contents() == old(b.Contents()) + EncodeNumber(n, fc)
      ensures b.data == old(b.data) || fresh(b.data)
    {
      hide BigEndian, EncodeInt;
      match n {
        case Int(i) => EncodeInteger(i);
        case Float(t) =>
          if fc.whole(t).Some? { EncodeInteger(fc.whole(t).value); }
          else if fc.single(t).Some? { PutTagged(0xCA, fc.single(t).value, 4); }
          else { PutTagged(0xCB, fc.double(t), 8); }
      }
    }

    method EncodeInteger(i: int)
      requires b.Valid()
      modifies b, b.data
      ensures b.Valid() && b.Contents() == old(b.Contents()) + EncodeInt(i)
      ensures b.data == old(b.data) || fresh(b.data)
    {
      hide BigEndian;
      if i >= 0 {
        if i <= 0x7F { PutTag(i); }
        else if i <= 0xFF { PutTagged(0xCC, i, 1); }
        else if i <= 0xFFFF { PutTagged(0xCD, i, 2); }
        else if i <= 0xFFFF_FFFF { PutTagged(0xCE, i, 4); }
        else { PutTagged(0xCF, i, 8); }
      } else {
        if i >= -32 { PutTag(i + 256); }
        else if i >= -128 { PutTagged(0xD0, i % TWO_64, 1); }
        else if i >= -32768 { PutTagged(0xD1, i % TWO_64, 2); }
        else if i >= -2147483648 { PutTagged(0xD2, i % TWO_64, 4); }
        else { PutTagged(0xD3, i % TWO_64, 8); }
      }
    }

    method EncodeString(s: Bytes)
      requires b.Valid()
      modifies b, b.data
      ensures b.Valid() && b.Contents() == old(b.Contents()) + EncodeStr(s)
      ensures b.data == old(b.data) || fresh(b.data)
    {
      hide EncodeLen, CString;
      var c := CString(s);
      EncodeLength(|c|, 0xA0, 31, 0xD9, 0xDA, 0xDB);
      ghost var tag := EncodeLen(|c|, 0xA0, 31, 0xD9, 0xDA, 0xDB);
      b.Append(c);
      Associates(old(b.Contents()), tag, c);
    }

    method EncodeTree(v: Json)
      requires b.Valid()
      modifies b, b.data
      ensures b.Valid() && b.Contents() == old(b.Contents()) + Encode(v, fc)
      ensures b.data == old(b.data) || fresh(b.data)
      decreases v, 1
    {
      hide EncodeNumber, EncodeStr, EncodeLen, EncodeItems, EncodeMembers;
      match v {
        case Null => PutTag(0xC0);
        case Bool(x) => PutTag(if x then 0xC3 else 0xC2);
        case Num(n) => EncodeNum(n);
        case Str(s) => EncodeString(s);
        case Arr(items) =>
          EncodeLength(|items|, 0x90, 15, 0, 0xDC, 0xDD);
          ghost var tag := EncodeLen(|items|, 0x90, 15, 0, 0xDC, 0xDD);
          EncodeAllItems(items);
          Associates(old(b.Contents()), tag, EncodeItems(items, fc));
        case Obj(ms) =>
          EncodeLength(|ms|, 0x80, 15, 0, 0xDE, 0xDF);
          ghost var tag := EncodeLen(|ms|, 0x80, 15, 0, 0xDE, 0xDF);
          EncodeAllMembers(ms);
          Associates(old(b.Contents()), tag, EncodeMembers(ms, fc));
      }
    }

    method EncodeAllItems(items: seq<Json>)
      requires b.Valid()
      modifies b, b.data
      ensures b.Valid() && b.Contents() == old(b.Contents()) + EncodeItems(items, fc)
      ensures b.data == old(b.data) || fresh(b.data)
      decreases items, 0
    {
      hide *;
      var i := 0;
      assert items[0..] == items;
      while i < |items|
        invariant 0 <= i <= |items| && b.Valid() && (b.data == old(b.data) || fresh(b.data))
        invariant b.Contents() + EncodeItems(items[i..], fc) == old(b.Contents()) + EncodeItems(items, fc)
      {
        NextItem(items, i, fc);
        Associates(b.Contents(), Encode(items[i], fc), EncodeItems(items[i + 1..], fc));
        EncodeTree(items[i]);
        i := i + 1;
      }
      NoItems(items, fc);
      NothingMore(b.Contents());
    }

    static lemma NextItem(items: seq<Json>, i: nat, fc: FloatCodec)
      requires i < |items|
      ensures EncodeItems(items[i..], fc) == Encode(items[i], fc) + EncodeItems(items[i + 1..], fc)
    {
      hide Encode;
      assert items[i..][1..] == items[i + 1..];
    }

    static lemma NoItems(items: seq<Json>, fc: FloatCodec)
      ensures EncodeItems(items[|items|..], fc) == []
    {
    }

    method EncodeAllMembers(ms: seq<Member>)
      requires b.Valid()
      modifies b, b.data
      ensures b.Valid() && b.Contents() == old(b.Contents()) + EncodeMembers(ms, fc)
      ensures b.data == old(b.data) || fresh(b.data)
      decreases ms, 0
    {
      hide *;
      var i := 0;
      assert ms[0..] == ms;
      while i < |ms|
        invariant 0 <= i <= |ms| && b.Valid() && (b.data == old(b.data) || fresh(b.data))
        invariant b.Contents() + EncodeMembers(ms[i..], fc) == old(b.Contents()) + EncodeMembers(ms, fc)
      {
        NextMember(ms, i, fc);
        ThreeAssociate(b.Contents(), EncodeStr(ms[i].key), Encode(ms[i].value, fc), EncodeMembers(ms[i + 1..], fc));
        EncodeString(ms[i].key);
        EncodeTree(ms[i].value);
        i := i + 1;
      }
      NoMembers(ms, fc);
      NothingMore(b.Contents());
    }

    static lemma NextMember(ms: seq<Member>, i: nat, fc: FloatCodec)
      requires i < |ms|
      ensures EncodeMembers(ms[i..], fc)
           == EncodeStr(ms[i].key) + Encode(ms[i].value, fc) + EncodeMembers(ms[i + 1..], fc)
    {
      hide Encode, EncodeStr;
      assert ms[i..][1..] == ms[i + 1..];
    }

    static lemma NoMembers(ms: seq<Member>, fc: FloatCodec)
      ensures EncodeMembers(ms[|ms|..], fc) == []
    {
    }

    static lemma ThreeAssociate(a: Bytes, b: Bytes, c: Bytes, d: Bytes)
      ensures a + (b + c + d) == a + b + c + d
    {
      Associates(a, b + c, d);
      Associates(a, b, c);
    }
  }

  method EncodeToBytes(v: Json, fc: FloatCodec) returns (out: Bytes)
    ensures out == Encode(v, fc)
  {
    var b := new Buffer(256);
    var e := new Encoder(b, fc);
    e.EncodeTree(v);
    assert [] + Encode(v, fc) == Encode(v, fc);
    out := b.data[..b.len];
  }

  /** Walks a cursor over the input; a failed call leaves the cursor anywhere. */
  class Decoder {
    const data: Bytes
    const fc: FloatCodec
    var pos: nat
    var depth: nat

    ghost predicate Valid()
      reads this`pos
    {
      pos <= |data|
    }

    constructor (data: Bytes, fc: FloatCodec)
      ensures Valid() && this.data == data && this.fc == fc && pos == 0 && depth == 0
    {
      this.data, this.fc, pos, depth := data, fc, 0, 0;
    }

    /** What a call that expected r must have done. */
    ghost predicate Reads<T(!new)>(r: Parse<T>, result: Option<T>, depthBefore: nat)
      reads this`pos, this`depth
    {
      match r
      case Fail => result == None
      case Ok(value, end) => result == Some(value) && pos == end && depth == depthBefore
    }

    method ReadLen(count: nat) returns (n: Option<nat>)
      requires Valid()
      modifies this`pos
      ensures Valid() && n == ReadBig(data, old(pos), count) && pos == if n.Some? then old(pos) + count else old(pos)
    {
      if |data| - pos < count { return None; }
      var v: nat, i: nat := 0, 0;
      while i < count
        invariant 0 <= i <= count && v == FromBig(data[pos..pos + i])
      {
        assert data[pos..pos + i + 1][..i] == data[pos..pos + i];
        v := v * 256 + data[pos + i];
        i := i + 1;
      }
      pos := pos + count;
      return Some(v);
    }

    method RawString(n: nat) returns (s: Option<Bytes>)
      requires Valid()
      modifies this`pos
      ensures Valid() && Reads(DecodeRaw(data, old(pos), n), s, depth)
    {
      if |data| - pos < n { return None; }
      s := Some(CString(data[pos..pos + n]));
      pos := pos + n;
    }

    method ScalarString(n: nat) returns (v: Option<Json>)
      requires Valid()
      modifies this`pos
      ensures Valid() && Reads(AsString(DecodeRaw(data, old(pos), n)), v, depth)
    {
      hide DecodeRaw;
      var s := RawString(n);
      v := if s.Some? then Some(Str(s.value)) else None;
    }

    method Scalar(t: Tag) returns (v: Option<Json>)
      requires Valid()
      modifies this`pos
      ensures Valid() && Reads(DecodeScalar(data, old(pos), t, fc), v, depth)
    {
      hide DecodeRaw, ReadBig, IntNumber, FromSigned, Power256;
      match t {
        case TagValue(x) => v := Some(x);
        case TagString(n) => v := ScalarString(n);
        case StringLength(k) =>
          var n := ReadLen(k);
          if n.None? { return None; }
          v := ScalarString(n.value);
        case SingleBits =>
          var u := ReadLen(4);
          v := if u.None? then None else Some(Num(fc.ofSingle(u.value)));
        case DoubleBits =>
          var u := ReadLen(8);
          v := if u.None? then None else Some(Num(fc.ofDouble(u.value)));
        case Unsigned(k) =>
          var u := ReadLen(k);
          v := if u.None? then None else Some(Num(IntNumber(u.value, fc)));
        case Signed(k) =>
          var u := ReadLen(k);
          v := if u.None? then None else Some(Num(IntNumber(FromSigned(u.value, Power256(k)), fc)));
        case _ => v := None;
      }
    }

    method Value() returns (v: Option<Json>)
      requires Valid()
      modifies this`pos, this`depth
      ensures Valid() && Reads(DecodeValue(data, old(pos), old(depth), fc), v, old(depth))
      decreases |data| - pos, 0
    {
      hide DecodeScalar, DecodeArray, DecodeMap, ReadBig, TagOf;
      if pos >= |data| { return None; }
      var t := TagOf(data[pos]);
      pos := pos + 1;
      match t {
        case TagArray(n) => v := Array(n);
        case TagMap(n) => v := Map(n);
        case ArrayLength(k) =>
          var n := ReadLen(k);
          if n.None? { return None; }
          v := Array(n.value);
        case MapLength(k) =>
          var n := ReadLen(k);
          if n.None? { return None; }
          v := Map(n.value);
        case _ => v := Scalar(t);
      }
    }

    method Array(n: nat) returns (v: Option<Json>)
      requires Valid()
      modifies this`pos, this`depth
      ensures Valid() && Reads(DecodeArray(data, old(pos), n, old(depth), fc), v, old(depth))
      decreases |data| - pos, 4
    {
      hide DecodeValue;
      if n > |data| - pos { return None; }
      depth := depth + 1;
      if depth > MAX_DEPTH { return None; }
      var items: seq<Json> := [];
      ghost var goal := DecodeItems(data, pos, n, depth, [], fc);
      var i := 0;
      while i < n
        invariant 0 <= i <= n && Valid() && old(pos) <= pos && depth == old(depth) + 1
        invariant DecodeItems(data, pos, n - i, depth, items, fc) == goal
      {
        var item := Value();
        if item.None? { return None; }
        items := items + [item.value];
        i := i + 1;
      }
      depth := depth - 1;
      return Some(Arr(items));
    }

    method Key() returns (k: Option<Bytes>)
      requires Valid()
      modifies this`pos, this`depth
      ensures Valid() && Reads(DecodeKey(data, old(pos), old(depth), fc), k, old(depth))
      decreases |data| - pos, 2
    {
      hide DecodeRaw, DecodeValue, ReadBig, TagOf, SerializerSpec.Serialize;
      if pos >= |data| { return None; }
      var t := TagOf(data[pos]);
      match t {
        case TagString(n) =>
          pos := pos + 1;
          k := RawString(n);
        case StringLength(count) =>
          pos := pos + 1;
          var n := ReadLen(count);
          if n.None? { return None; }
          k := RawString(n.value);
        case _ =>
          var v := Value();
          if v.None? { return None; }
          var s := Serializer.SerializeTree(v.value, SerializerSpec.PrintOptions(0, false, false));
          k := Some(s);
      }
    }

    method Map(n: nat) returns (v: Option<Json>)
      requires Valid()
      modifies this`pos, this`depth
      ensures Valid() && Reads(DecodeMap(data, old(pos), n, old(depth), fc), v, old(depth))
      decreases |data| - pos, 4
    {
      hide DecodeValue, DecodeKey, SetMember;
      if n > |data| - pos { return None; }
      depth := depth + 1;
      if depth > MAX_DEPTH { return None; }
      var members: seq<Member> := [];
      ghost var goal := DecodeEntries(data, pos, n, depth, [], fc);
      var i := 0;
      while i < n
        invariant 0 <= i <= n && Valid() && old(pos) <= pos && depth == old(depth) + 1
        invariant DecodeEntries(data, pos, n - i, depth, members, fc) == goal
      {
        var key := Key();
        if key.None? { return None; }
        var val := Value();
        if val.None? { return None; }
        members := SetMember(members, key.value, val.value);
        i := i + 1;
      }
      depth := depth - 1;
      return Some(Obj(members));
    }
  }

  method DecodeBytes(data: Bytes, fc: FloatCodec) returns (v: Option<Json>)
    ensures v == Decode(data, fc)
  {
    hide DecodeValue;
    var d := new Decoder(data, fc);
    v := d.Value();
    if v.Some? && d.pos != |data| { return None; }
  }
}
