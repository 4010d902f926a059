/** The formats of MessagePack as a table of tag bytes: the decoder reads exactly these, the encoder writes the shortest. */
module MsgPackLaws {
  import opened Bytes
  import opened Texts
  import opened Options
  import opened JsonValue
  import opened JsonOps
  import opened Scan
  import opened ParserSpec
  import opened MsgPackSpec
  import opened MsgPackRoundTrip
  import SerializerSpec

  /** One value as it lies in a buffer: a tag alone, a tag and a number, raw bytes, or a container. */
  datatype Wire =
    | Lone(tag: byte)
    | Sized(tag: byte, u: nat)
    | Raw(tag: byte, s: Bytes)
    | List(tag: byte, items: seq<Wire>)
    | Dict(tag: byte, entries: seq<Entry>)

  datatype Entry = Entry(key: Wire, value: Wire)

  /** The bytes of a number or a length after each tag; none after the tags that hold their length. */
  function Width(tag: byte): nat
  {
    if tag == 0xC4 || tag == 0xD9 || tag == 0xCC || tag == 0xD0 then 1
    else if tag == 0xC5 || tag == 0xDA || tag == 0xCD || tag == 0xD1 || tag == 0xDC || tag == 0xDE then 2
    else if tag == 0xC6 || tag == 0xDB || tag == 0xCA || tag == 0xCE || tag == 0xD2 || tag == 0xDD || tag == 0xDF then 4
    else if tag == 0xCB || tag == 0xCF || tag == 0xD3 then 8
    else 0
  }

  predicate FitsTag(tag: byte, first: byte, last: byte, n: nat)
  {
    if first <= tag <= last then n == tag - first else n < Power256(Width(tag))
  }

  predicate Good(w: Wire)
  {
    match w
    case Lone(t) => t <= 0x7F || t >= 0xE0 || t == 0xC0 || t == 0xC2 || t == 0xC3
    case Sized(t, u) => (0xCA <= t <= 0xD3) && u < Power256(Width(t))
    case Raw(t, s) => (0xA0 <= t <= 0xBF || 0xC4 <= t <= 0xC6 || 0xD9 <= t <= 0xDB) && FitsTag(t, 0xA0, 0xBF, |s|)
    case List(t, items) =>
      && (0x90 <= t <= 0x9F || t == 0xDC || t == 0xDD) && FitsTag(t, 0x90, 0x9F, |items|)
      && forall i :: 0 <= i < |items| ==> Good(items[i])
    case Dict(t, es) =>
      && (0x80 <= t <= 0x8F || t == 0xDE || t == 0xDF) && FitsTag(t, 0x80, 0x8F, |es|)
      && forall i :: 0 <= i < |es| ==> GoodEntry(es[i])
  }

  predicate GoodEntry(e: Entry)
  {
    Good(e.key) && Good(e.value)
  }

  /** It nests at most `room` containers deep. */
  predicate Shallow(w: Wire, room: int)
  {
    match w
    case List(_, items) => room > 0 && forall i :: 0 <= i < |items| ==> Shallow(items[i], room - 1)
    case Dict(_, es) =>
      room > 0 && forall i :: 0 <= i < |es| ==> ShallowEntry(es[i], room - 1)
    case _ => true
  }

  predicate ShallowEntry(e: Entry, room: int) { Shallow(e.key, room) && Shallow(e.value, room) }

  function WireBytes(w: Wire): (r: Bytes)
    ensures r != []
    decreases w, 1
  {
    match w
    case Lone(t) => [t]
    case Sized(t, u) => [t] + BigEndian(u, Width(t))
    case Raw(t, s) => [t] + BigEndian(|s|, Width(t)) + s
    case List(t, items) => [t] + BigEndian(|items|, Width(t)) + ItemBytes(items)
    case Dict(t, es) => [t] + BigEndian(|es|, Width(t)) + EntryBytes(es)
  }

  function ItemBytes(items: seq<Wire>): (r: Bytes)
    ensures |r| >= |items|
    decreases items, 0
  {
    if items == [] then [] else WireBytes(items[0]) + ItemBytes(items[1..])
  }

  function EntryBytes(es: seq<Entry>): (r: Bytes)
    ensures |r| >= |es|
    decreases es, 0
  {
    if es == [] then [] else OneEntryBytes(es[0]) + EntryBytes(es[1..])
  }

  function OneEntryBytes(e: Entry): (r: Bytes)
    ensures r != []
    decreases e, 2
  {
    WireBytes(e.key) + WireBytes(e.value)
  }

  function TwosComplement(u: nat, bits: nat): int
  {
    if bits == 1 then (if u < 0x80 then u else u - 0x100)
    else if bits == 2 then (if u < 0x8000 then u else u - 0x1_0000)
    else if bits == 4 then (if u < 0x8000_0000 then u else u - 0x1_0000_0000)
    else if u < 0x8000_0000_0000_0000 then u else u - 0x1_0000_0000_0000_0000
  }

  function Means(w: Wire, fc: FloatCodec): Json
    decreases w, 1
  {
    match w
    case Lone(t) =>
      if t <= 0x7F then Num(Int(t)) else if t >= 0xE0 then Num(Int(t - 256))
      else if t == 0xC0 then Null else Bool(t == 0xC3)
    case Sized(t, u) =>
      if t == 0xCA then Num(fc.ofSingle(u)) else if t == 0xCB then Num(fc.ofDouble(u))
      else Num(IntNumber(if t <= 0xCF then u else TwosComplement(u, Width(t)), fc))
    case Raw(_, s) => Str(CString(s))
    case List(_, items) => Arr(MeansItems(items, fc))
    case Dict(_, es) => Obj(MeansEntries(es, [], fc))
  }

  function MeansItems(items: seq<Wire>, fc: FloatCodec): seq<Json>
    decreases items, 0
  {
    if items == [] then [] else [Means(items[0], fc)] + MeansItems(items[1..], fc)
  }

  /** A key that is no string is its JSON text. */
  function KeyText(k: Wire, fc: FloatCodec): Bytes
    decreases k, 2
  {
    if k.Raw? then CString(k.s)
    else SerializerSpec.Serialize(Means(k, fc), SerializerSpec.PrintOptions(0, false, false))
  }

  function MeansEntries(es: seq<Entry>, done: seq<Member>, fc: FloatCodec): seq<Member>
    decreases es, 0
  {
    if es == [] then done
    else
      var m := MeansEntry(es[0], fc);
      MeansEntries(es[1..], SetMember(done, m.key, m.value), fc)
  }

  function MeansEntry(e: Entry, fc: FloatCodec): Member
    decreases e, 3
  {
    Member(KeyText(e.key, fc), Means(e.value, fc))
  }

  // --- What is in the table is read ---

  lemma SizedReads(t: byte, u: nat, rest: Bytes, inp: Bytes, p: nat)
    requires u < Power256(Width(t)) && Holds(inp, p, [t] + BigEndian(u, Width(t)) + rest)
    ensures p < |inp| && inp[p] == t && ReadBig(inp, p + 1, Width(t)) == Some(u)
    ensures Holds(inp, p + 1 + Width(t), rest) && p + 1 + Width(t) + |rest| <= |inp|
  {
    HoldsParts(inp, p, [t] + BigEndian(u, Width(t)), rest);
    TaggedHeld(t, u, Width(t), inp, p);
  }

  lemma SignedIs(u: nat, k: nat)
    requires k == 1 || k == 2 || k == 4 || k == 8
    ensures FromSigned(u, Power256(k)) == TwosComplement(u, k)
  {
    Powers();
    hide Power256;
  }

  /** What the decoder takes each tag for. */
  lemma TagTable(t: byte)
    ensures t <= 0x7F ==> TagOf(t) == TagValue(Num(Int(t)))
    ensures t >= 0xE0 ==> TagOf(t) == TagValue(Num(Int(t - 256)))
    ensures t == 0xC0 ==> TagOf(t) == TagValue(Null)
    ensures t == 0xC2 || t == 0xC3 ==> TagOf(t) == TagValue(Bool(t == 0xC3))
    ensures t == 0xCA ==> TagOf(t) == SingleBits
    ensures t == 0xCB ==> TagOf(t) == DoubleBits
    ensures 0xCC <= t <= 0xCF ==> TagOf(t) == Unsigned(Width(t))
    ensures 0xD0 <= t <= 0xD3 ==> TagOf(t) == Signed(Width(t))
    ensures 0xA0 <= t <= 0xBF ==> TagOf(t) == TagString(t - 0xA0)
    ensures 0xC4 <= t <= 0xC6 || 0xD9 <= t <= 0xDB ==> TagOf(t) == StringLength(Width(t))
    ensures 0x90 <= t <= 0x9F ==> TagOf(t) == TagArray(t - 0x90)
    ensures t == 0xDC || t == 0xDD ==> TagOf(t) == ArrayLength(Width(t))
    ensures 0x80 <= t <= 0x8F ==> TagOf(t) == TagMap(t - 0x80)
    ensures t == 0xDE || t == 0xDF ==> TagOf(t) == MapLength(Width(t))
    ensures t == 0xC1 || 0xC7 <= t <= 0xC9 || 0xD4 <= t <= 0xD8 ==> TagOf(t) == Unsupported
  {
  }

  lemma ScalarTag(inp: Bytes, p: nat, depth: nat, fc: FloatCodec)
    requires p < |inp|
    requires var t := TagOf(inp[p]); !t.TagArray? && !t.TagMap? && !t.ArrayLength? && !t.MapLength?
    ensures DecodeValue(inp, p, depth, fc) == DecodeScalar(inp, p + 1, TagOf(inp[p]), fc)
  {
    hide DecodeScalar, TagOf;
  }

  lemma ArrayTag(inp: Bytes, p: nat, n: nat, e: nat, depth: nat, fc: FloatCodec)
    requires p < |inp| && e <= |inp|
    requires var t := TagOf(inp[p]);
             (t == TagArray(n) && e == p + 1)
             || (t.ArrayLength? && ReadBig(inp, p + 1, t.bytes) == Some(n) && e == p + 1 + t.bytes)
    ensures DecodeValue(inp, p, depth, fc) == DecodeArray(inp, e, n, depth, fc)
  {
    hide DecodeArray, DecodeScalar, TagOf, ReadBig;
  }

  lemma MapTag(inp: Bytes, p: nat, n: nat, e: nat, depth: nat, fc: FloatCodec)
    requires p < |inp| && e <= |inp|
    requires var t := TagOf(inp[p]);
             (t == TagMap(n) && e == p + 1)
             || (t.MapLength? && ReadBig(inp, p + 1, t.bytes) == Some(n) && e == p + 1 + t.bytes)
    ensures DecodeValue(inp, p, depth, fc) == DecodeMap(inp, e, n, depth, fc)
  {
    hide DecodeMap, DecodeScalar, TagOf, ReadBig;
  }

  lemma ScalarReads(w: Wire, inp: Bytes, p: nat, depth: nat, fc: FloatCodec)
    requires Good(w) && (w.Lone? || w.Sized?) && Holds(inp, p, WireBytes(w))
    ensures DecodeValue(inp, p, depth, fc) == Ok(Means(w, fc), p + |WireBytes(w)|)
  {
    hide DecodeValue, TagOf, Power256, BigEndian, ReadBig, Holds, FromSigned, TwosComplement, IntNumber;
    TagTable(w.tag);
    match w
    case Lone(t) =>
      ByteHeld(t, inp, p);
      ScalarTag(inp, p, depth, fc);
    case Sized(t, u) =>
      NothingMore([t] + BigEndian(u, Width(t)));
      SizedReads(t, u, [], inp, p);
      ScalarTag(inp, p, depth, fc);
      if 0xD0 <= t { SignedIs(u, Width(t)); }
  }

  lemma RawReads(t: byte, s: Bytes, inp: Bytes, p: nat, depth: nat, fc: FloatCodec)
    requires Good(Raw(t, s)) && Holds(inp, p, WireBytes(Raw(t, s)))
    ensures DecodeValue(inp, p, depth, fc) == Ok(Str(CString(s)), p + |WireBytes(Raw(t, s))|)
    ensures DecodeKey(inp, p, depth, fc) == Ok(CString(s), p + |WireBytes(Raw(t, s))|)
  {
    hide DecodeValue, TagOf, Power256, BigEndian, ReadBig, Holds, CString, DecodeRaw, FitsTag;
    TagTable(t);
    RawTagReads(t, s, inp, p);
    RawHeld(s, inp, p + 1 + Width(t));
    ScalarTag(inp, p, depth, fc);
  }

  lemma RawTagReads(t: byte, s: Bytes, inp: Bytes, p: nat)
    requires Good(Raw(t, s)) && Holds(inp, p, [t] + BigEndian(|s|, Width(t)) + s)
    ensures p < |inp| && inp[p] == t && Holds(inp, p + 1 + Width(t), s)
    ensures Width(t) > 0 ==> ReadBig(inp, p + 1, Width(t)) == Some(|s|)
    ensures 0xA0 <= t <= 0xBF ==> |s| == t - 0xA0
  {
    hide Power256, BigEndian, ReadBig, Holds;
    ContainerReads(t, 0xA0, 0xBF, |s|, s, inp, p);
  }

  lemma RawHeld(s: Bytes, inp: Bytes, p: nat)
    requires Holds(inp, p, s)
    ensures DecodeRaw(inp, p, |s|) == Ok(CString(s), p + |s|)
  {
  }

  /** A container's tag announces its size and leads to its contents. */
  lemma ContainerReads(t: byte, first: byte, last: byte, n: nat, rest: Bytes, inp: Bytes, p: nat)
    requires first <= last && Width(t) <= 4 && (first <= t <= last ==> Width(t) == 0)
    requires (!(first <= t <= last) ==> Width(t) > 0) && FitsTag(t, first, last, n)
    requires Holds(inp, p, [t] + BigEndian(n, Width(t)) + rest)
    ensures p < |inp| && inp[p] == t && Holds(inp, p + 1 + Width(t), rest) && p + 1 + Width(t) + |rest| <= |inp|
    ensures Width(t) > 0 ==> ReadBig(inp, p + 1, Width(t)) == Some(n)
  {
    if first <= t <= last {
      NothingMore([t]);
      HoldsParts(inp, p, [t], rest);
      ByteHeld(t, inp, p);
      HoldsFits(inp, p + 1, rest);
    } else {
      SizedReads(t, n, rest, inp, p);
    }
  }

  lemma {:induction false} WireReads(w: Wire, inp: Bytes, p: nat, depth: nat, fc: FloatCodec)
    requires Good(w) && Shallow(w, 512 - depth) && Holds(inp, p, WireBytes(w))
    ensures DecodeValue(inp, p, depth, fc) == Ok(Means(w, fc), p + |WireBytes(w)|)
    decreases w, 1
  {
    match w
    case Lone(_) => ScalarReads(w, inp, p, depth, fc);
    case Sized(_, _) => ScalarReads(w, inp, p, depth, fc);
    case Raw(t, s) => RawReads(t, s, inp, p, depth, fc);
    case List(t, items) => ListReads(t, items, inp, p, depth, fc);
    case Dict(t, es) => DictReads(t, es, inp, p, depth, fc);
  }

  lemma {:induction false} ListReads(t: byte, items: seq<Wire>, inp: Bytes, p: nat, depth: nat, fc: FloatCodec)
    requires Good(List(t, items)) && Shallow(List(t, items), 512 - depth) && Holds(inp, p, WireBytes(List(t, items)))
    ensures DecodeValue(inp, p, depth, fc) == Ok(Means(List(t, items), fc), p + |WireBytes(List(t, items))|)
    decreases items, 1
  {
    hide DecodeValue, TagOf, Power256, BigEndian, ReadBig, Holds, ItemBytes, MeansItems, DecodeItems, FitsTag;
    var e := p + 1 + Width(t);
    ListContents(t, items, inp, p, depth);
    TagTable(t);
    ArrayTag(inp, p, |items|, e, depth, fc);
    ItemsRead(items, inp, e, depth + 1, [], fc);
    NoItemsBefore(MeansItems(items, fc));
  }

  lemma ListContents(t: byte, items: seq<Wire>, inp: Bytes, p: nat, depth: nat)
    requires Good(List(t, items)) && Shallow(List(t, items), 512 - depth)
    requires Holds(inp, p, WireBytes(List(t, items)))
    ensures forall i :: 0 <= i < |items| ==> Good(items[i]) && Shallow(items[i], 512 - (depth + 1))
    ensures depth < 512 && p < |inp| && inp[p] == t && Holds(inp, p + 1 + Width(t), ItemBytes(items))
    ensures p + 1 + Width(t) + |ItemBytes(items)| <= |inp|
    ensures Width(t) > 0 ==> ReadBig(inp, p + 1, Width(t)) == Some(|items|)
    ensures 0x90 <= t <= 0x9F ==> |items| == t - 0x90
  {
    hide Power256, BigEndian, ReadBig, Holds, ItemBytes;
    ContainerReads(t, 0x90, 0x9F, |items|, ItemBytes(items), inp, p);
  }

  lemma NoItemsBefore(s: seq<Json>)
    ensures [] + s == s
  {
  }

  lemma {:induction false} ItemsRead(items: seq<Wire>, inp: Bytes, p: nat, depth: nat, done: seq<Json>, fc: FloatCodec)
    requires (forall i :: 0 <= i < |items| ==> Good(items[i]) && Shallow(items[i], 512 - depth))
    requires Holds(inp, p, ItemBytes(items)) && p <= |inp|
    ensures DecodeItems(inp, p, |items|, depth, done, fc) == Ok(done + MeansItems(items, fc), p + |ItemBytes(items)|)
    decreases items, 0
  {
    hide *;
    ItemsUnfold(items, fc);
    if items == [] {
      DecodesNoItems(inp, p, depth, done, fc);
      NothingAfter(done);
    } else {
      var first := WireBytes(items[0]);
      HoldsParts(inp, p, first, ItemBytes(items[1..]));
      HoldsFits(inp, p, first);
      WireReads(items[0], inp, p, depth, fc);
      HoldsFits(inp, p + |first|, ItemBytes(items[1..]));
      ItemsRead(items[1..], inp, p + |first|, depth, done + [Means(items[0], fc)], fc);
      DecodesItem(inp, p, |items|, depth, done, p + |first|, Means(items[0], fc), fc);
      AfterOne(done, Means(items[0], fc), MeansItems(items[1..], fc));
    }
  }

  lemma ItemsUnfold(items: seq<Wire>, fc: FloatCodec)
    ensures items == [] ==> ItemBytes(items) == [] && MeansItems(items, fc) == []
    ensures items != [] ==>
              && ItemBytes(items) == WireBytes(items[0]) + ItemBytes(items[1..])
              && MeansItems(items, fc) == [Means(items[0], fc)] + MeansItems(items[1..], fc)
  {
    hide WireBytes, Means;
  }

  lemma NothingAfter(s: seq<Json>)
    ensures s + [] == s
  {
  }

  lemma AfterOne(a: seq<Json>, v: Json, b: seq<Json>)
    ensures a + [v] + b == a + ([v] + b)
  {
  }

  lemma DecodesNoItems(inp: Bytes, p: nat, depth: nat, done: seq<Json>, fc: FloatCodec)
    requires p <= |inp|
    ensures DecodeItems(inp, p, 0, depth, done, fc) == Ok(done, p)
  {
  }

  lemma DecodesItem(inp: Bytes, p: nat, n: nat, depth: nat, done: seq<Json>, e: nat, v: Json, fc: FloatCodec)
    requires p <= |inp| && n > 0 && DecodeValue(inp, p, depth, fc) == Ok(v, e)
    ensures DecodeItems(inp, p, n, depth, done, fc) == DecodeItems(inp, e, n - 1, depth, done + [v], fc)
  {
    hide DecodeValue;
  }

  lemma {:induction false} DictReads(t: byte, es: seq<Entry>, inp: Bytes, p: nat, depth: nat, fc: FloatCodec)
    requires Good(Dict(t, es)) && Shallow(Dict(t, es), 512 - depth) && Holds(inp, p, WireBytes(Dict(t, es)))
    ensures DecodeValue(inp, p, depth, fc) == Ok(Means(Dict(t, es), fc), p + |WireBytes(Dict(t, es))|)
    decreases es, 1
  {
    hide DecodeValue, TagOf, Power256, BigEndian, ReadBig, Holds, EntryBytes, MeansEntries, DecodeEntries, FitsTag;
    var e := p + 1 + Width(t);
    DictContents(t, es, inp, p, depth);
    TagTable(t);
    MapTag(inp, p, |es|, e, depth, fc);
    EntriesRead(es, inp, e, depth + 1, [], fc);
  }

  lemma DictContents(t: byte, es: seq<Entry>, inp: Bytes, p: nat, depth: nat)
    requires Good(Dict(t, es)) && Shallow(Dict(t, es), 512 - depth)
    requires Holds(inp, p, WireBytes(Dict(t, es)))
    ensures forall i :: 0 <= i < |es| ==> GoodEntry(es[i]) && ShallowEntry(es[i], 512 - (depth + 1))
    ensures depth < 512 && p < |inp| && inp[p] == t && Holds(inp, p + 1 + Width(t), EntryBytes(es))
    ensures p + 1 + Width(t) + |EntryBytes(es)| <= |inp|
    ensures Width(t) > 0 ==> ReadBig(inp, p + 1, Width(t)) == Some(|es|)
    ensures 0x80 <= t <= 0x8F ==> |es| == t - 0x80
  {
    hide Power256, BigEndian, ReadBig, Holds, EntryBytes, GoodEntry, ShallowEntry;
    ContainerReads(t, 0x80, 0x8F, |es|, EntryBytes(es), inp, p);
  }

  lemma {:induction false} KeyReads(k: Wire, inp: Bytes, p: nat, depth: nat, fc: FloatCodec)
    requires Good(k) && Shallow(k, 512 - depth) && Holds(inp, p, WireBytes(k))
    ensures DecodeKey(inp, p, depth, fc) == Ok(KeyText(k, fc), p + |WireBytes(k)|)
    decreases k, 2
  {
    if k.Raw? {
      RawReads(k.tag, k.s, inp, p, depth, fc);
    } else {
      WireReads(k, inp, p, depth, fc);
      NoStringTag(k, inp, p);
      hide DecodeValue, DecodeRaw, ReadBig, Means, WireBytes, TagOf, Good, Shallow, SerializerSpec.Serialize;
    }
  }

  lemma NoStringTag(k: Wire, inp: Bytes, p: nat)
    requires Good(k) && !k.Raw? && Holds(inp, p, WireBytes(k))
    ensures p < |inp| && !TagOf(inp[p]).TagString? && !TagOf(inp[p]).StringLength?
  {
    FirstIsTag(k);
    TagTable(k.tag);
    HoldsAt(inp, p, WireBytes(k), 0);
    HoldsFits(inp, p, WireBytes(k));
    hide WireBytes, Holds, TagOf, FitsTag;
  }

  lemma FirstIsTag(k: Wire)
    ensures WireBytes(k)[0] == k.tag
  {
  }

  lemma {:induction false} EntriesRead(es: seq<Entry>, inp: Bytes, p: nat, depth: nat, done: seq<Member>, fc: FloatCodec)
    requires forall i :: 0 <= i < |es| ==> GoodEntry(es[i]) && ShallowEntry(es[i], 512 - depth)
    requires Holds(inp, p, EntryBytes(es)) && p <= |inp|
    ensures DecodeEntries(inp, p, |es|, depth, done, fc) == Ok(MeansEntries(es, done, fc), p + |EntryBytes(es)|)
    decreases es, 0
  {
    hide *;
    EntriesUnfold(es, done, fc);
    if es == [] {
      DecodesNoEntries(inp, p, depth, done, fc);
    } else {
      var e, m := OneEntryBytes(es[0]), MeansEntry(es[0], fc);
      HoldsParts(inp, p, e, EntryBytes(es[1..]));
      var k := EntryReads(es[0], inp, p, depth, fc);
      EntriesRead(es[1..], inp, p + |e|, depth, SetMember(done, m.key, m.value), fc);
      DecodesEntry(inp, p, |es|, depth, done, k, p + |e|, m, fc);
    }
  }

  lemma EntriesUnfold(es: seq<Entry>, done: seq<Member>, fc: FloatCodec)
    ensures es == [] ==> EntryBytes(es) == [] && MeansEntries(es, done, fc) == done
    ensures es != [] ==>
              var m := MeansEntry(es[0], fc);
              && EntryBytes(es) == OneEntryBytes(es[0]) + EntryBytes(es[1..])
              && MeansEntries(es, done, fc) == MeansEntries(es[1..], SetMember(done, m.key, m.value), fc)
  {
    hide OneEntryBytes, MeansEntry, SetMember;
  }

  lemma DecodesNoEntries(inp: Bytes, p: nat, depth: nat, done: seq<Member>, fc: FloatCodec)
    requires p <= |inp|
    ensures DecodeEntries(inp, p, 0, depth, done, fc) == Ok(done, p)
  {
  }

  lemma DecodesEntry(
      inp: Bytes, p: nat, n: nat, depth: nat, done: seq<Member>, k: nat, e: nat, m: Member, fc: FloatCodec)
    requires p <= |inp| && n > 0 && DecodeKey(inp, p, depth, fc) == Ok(m.key, k)
    requires k <= |inp| && DecodeValue(inp, k, depth, fc) == Ok(m.value, e)
    ensures DecodeEntries(inp, p, n, depth, done, fc)
         == DecodeEntries(inp, e, n - 1, depth, SetMember(done, m.key, m.value), fc)
  {
    hide DecodeKey, DecodeValue, SetMember;
  }

  lemma {:induction false} EntryReads(e: Entry, inp: Bytes, p: nat, depth: nat, fc: FloatCodec) returns (k: nat)
    requires GoodEntry(e) && ShallowEntry(e, 512 - depth) && Holds(inp, p, OneEntryBytes(e))
    ensures p + |OneEntryBytes(e)| <= |inp| && k <= |inp|
    ensures DecodeKey(inp, p, depth, fc) == Ok(MeansEntry(e, fc).key, k)
    ensures DecodeValue(inp, k, depth, fc) == Ok(MeansEntry(e, fc).value, p + |OneEntryBytes(e)|)
    decreases e, 3
  {
    hide Holds, WireBytes, Means, KeyText, DecodeValue, DecodeKey, Good, Shallow;
    HoldsParts(inp, p, WireBytes(e.key), WireBytes(e.value));
    HoldsFits(inp, p + |WireBytes(e.key)|, WireBytes(e.value));
    KeyReads(e.key, inp, p, depth, fc);
    WireReads(e.value, inp, p + |WireBytes(e.key)|, depth, fc);
    k := p + |WireBytes(e.key)|;
  }

  // --- Nothing else is read ---

  lemma {:induction false} BigOf(s: Bytes)
    ensures FromBig(s) < Power256(|s|) && BigEndian(FromBig(s), |s|) == s
    decreases |s|
  {
    if s != [] {
      var n := |s| - 1;
      BigOf(s[..n]);
      assert s == s[..n] + [s[n]];
      assert FromBig(s) / 256 == FromBig(s[..n]) && FromBig(s) % 256 == s[n];
    }
  }

  /** The tag, the number after it and what follows stand together in the buffer. */
  lemma TaggedStands(inp: Bytes, p: nat, u: nat, rest: Bytes)
    requires p < |inp|
    requires var k := Width(inp[p]); (k > 0 ==> ReadBig(inp, p + 1, k) == Some(u)) && Holds(inp, p + 1 + k, rest)
    ensures var k := Width(inp[p]);
            (k > 0 ==> u < Power256(k)) && Holds(inp, p, [inp[p]] + BigEndian(u, k) + rest)
  {
    var k := Width(inp[p]);
    if k > 0 { BigOf(inp[p + 1..p + 1 + k]); } else { assert BigEndian(u, 0) == []; }
    var s := [inp[p]] + BigEndian(u, k) + rest;
    assert p + |s| <= |inp|;
    assert inp[p..p + |s|] == [inp[p]] + inp[p + 1..p + 1 + k] + inp[p + 1 + k..p + |s|];
  }

  predicate Told(w: Wire, inp: Bytes, p: nat, depth: nat, v: Json, e: nat, fc: FloatCodec)
  {
    Good(w) && Shallow(w, 512 - depth) && Holds(inp, p, WireBytes(w)) && e == p + |WireBytes(w)| && Means(w, fc) == v
  }

  lemma ScalarTold(inp: Bytes, p: nat, depth: nat, fc: FloatCodec) returns (w: Wire)
    requires p < |inp| && DecodeScalar(inp, p + 1, TagOf(inp[p]), fc).Ok?
    ensures var r := DecodeScalar(inp, p + 1, TagOf(inp[p]), fc); Told(w, inp, p, depth, r.value, r.pos, fc)
  {
    var t := inp[p];
    hide Told;
    if t <= 0x7F || t >= 0xE0 || t == 0xC0 || t == 0xC2 || t == 0xC3 {
      LoneTold(inp, p, depth, fc);
      w := Lone(t);
    } else if 0xCA <= t <= 0xD3 {
      w := SizedTold(inp, p, depth, fc);
    } else {
      var s := RawTold(inp, p, depth, fc);
      w := Wire.Raw(t, s);
    }
  }

  lemma LoneTold(inp: Bytes, p: nat, depth: nat, fc: FloatCodec)
    requires p < |inp| && Good(Lone(inp[p]))
    ensures var r := DecodeScalar(inp, p + 1, TagOf(inp[p]), fc); r.Ok? && Told(Lone(inp[p]), inp, p, depth, r.value, r.pos, fc)
  {
    TagTable(inp[p]);
    LoneStands(inp, p);
    hide TagOf, Holds, ReadBig, DecodeRaw;
  }

  lemma SizedTold(inp: Bytes, p: nat, depth: nat, fc: FloatCodec) returns (w: Wire)
    requires p < |inp| && 0xCA <= inp[p] <= 0xD3 && DecodeScalar(inp, p + 1, TagOf(inp[p]), fc).Ok?
    ensures var r := DecodeScalar(inp, p + 1, TagOf(inp[p]), fc); Told(w, inp, p, depth, r.value, r.pos, fc)
  {
    var t := inp[p];
    TagTable(t);
    hide TagOf, BigEndian, Power256, FromSigned, TwosComplement, IntNumber, DecodeRaw;
    var u := ReadBig(inp, p + 1, Width(t)).value;
    EmptyHolds(inp, p + 1 + Width(t));
    hide ReadBig, Holds;
    TaggedStands(inp, p, u, []);
    NothingMore([t] + BigEndian(u, Width(t)));
    if 0xD0 <= t { SignedIs(u, Width(t)); }
    w := Sized(t, u);
  }

  predicate IsStringTag(t: byte) { 0xA0 <= t <= 0xBF || 0xC4 <= t <= 0xC6 || 0xD9 <= t <= 0xDB }

  /** The length that a string's tag announces. */
  predicate Announces(inp: Bytes, p: nat, n: nat)
  {
    p < |inp| && IsStringTag(inp[p]) &&
    if inp[p] <= 0xBF then n == inp[p] - 0xA0 else ReadBig(inp, p + 1, Width(inp[p])) == Some(n)
  }

  lemma RawWhole(inp: Bytes, p: nat, n: nat)
    requires Announces(inp, p, n) && p + 1 + Width(inp[p]) + n <= |inp|
    ensures var q := p + 1 + Width(inp[p]);
            var w := Wire.Raw(inp[p], inp[q..q + n]);
            Good(w) && Holds(inp, p, WireBytes(w)) && q + n == p + |WireBytes(w)|
  {
    var q := p + 1 + Width(inp[p]);
    RawFits(inp, p, n);
    SliceHolds(inp, q, n);
    hide ReadBig, Holds, BigEndian, Power256;
    TaggedStands(inp, p, n, inp[q..q + n]);
  }

  lemma BigFits(inp: Bytes, p: nat, k: nat)
    requires ReadBig(inp, p, k).Some?
    ensures ReadBig(inp, p, k).value < Power256(k)
  {
    hide Power256, FromBig, BigEndian;
    BigOf(inp[p..p + k]);
  }

  lemma RawFits(inp: Bytes, p: nat, n: nat)
    requires Announces(inp, p, n)
    ensures FitsTag(inp[p], 0xA0, 0xBF, n)
  {
    hide Power256, ReadBig, Width;
    if inp[p] > 0xBF { BigFits(inp, p + 1, Width(inp[p])); }
  }

  lemma SliceHolds(inp: Bytes, q: nat, n: nat)
    requires q + n <= |inp|
    ensures Holds(inp, q, inp[q..q + n])
  {
  }

  lemma RawTold(inp: Bytes, p: nat, depth: nat, fc: FloatCodec) returns (s: Bytes)
    requires p < |inp| && DecodeScalar(inp, p + 1, TagOf(inp[p]), fc).Ok?
    requires var t := inp[p]; t > 0x7F && t < 0xE0 && t != 0xC0 && t != 0xC2 && t != 0xC3 && !(0xCA <= t <= 0xD3)
    ensures var r := DecodeScalar(inp, p + 1, TagOf(inp[p]), fc); Told(Wire.Raw(inp[p], s), inp, p, depth, r.value, r.pos, fc)
  {
    var n := RawScalar(inp, p, fc);
    var q := p + 1 + Width(inp[p]);
    RawStands(inp, q, n);
    s := inp[q..q + n];
    hide DecodeScalar, Holds, WireBytes, Good, DecodeRaw, Announces, TagOf;
    RawWhole(inp, p, n);
  }

  lemma RawScalar(inp: Bytes, p: nat, fc: FloatCodec) returns (n: nat)
    requires p < |inp| && DecodeScalar(inp, p + 1, TagOf(inp[p]), fc).Ok?
    requires var t := inp[p]; t > 0x7F && t < 0xE0 && t != 0xC0 && t != 0xC2 && t != 0xC3 && !(0xCA <= t <= 0xD3)
    ensures Announces(inp, p, n) && DecodeRaw(inp, p + 1 + Width(inp[p]), n).Ok?
    ensures DecodeScalar(inp, p + 1, TagOf(inp[p]), fc) == AsString(DecodeRaw(inp, p + 1 + Width(inp[p]), n))
  {
    var t := inp[p];
    TagTable(t);
    hide TagOf, ReadBig, DecodeRaw;
    n := if t <= 0xBF then t - 0xA0 else ReadBig(inp, p + 1, Width(t)).value;
  }

  lemma LoneStands(inp: Bytes, p: nat)
    requires p < |inp|
    ensures Holds(inp, p, [inp[p]])
  {
  }

  lemma {:induction false} ValueTold(inp: Bytes, p: nat, depth: nat, fc: FloatCodec) returns (w: Wire)
    requires p <= |inp| && DecodeValue(inp, p, depth, fc).Ok?
    ensures var r := DecodeValue(inp, p, depth, fc); Told(w, inp, p, depth, r.value, r.pos, fc)
    decreases |inp| - p, 0
  {
    var t := inp[p];
    TagTable(t);
    hide TagOf, DecodeScalar, DecodeArray, DecodeMap, ReadBig;
    if 0x90 <= t <= 0x9F || t == 0xDC || t == 0xDD {
      var n := if t <= 0x9F then t - 0x90 else ReadBig(inp, p + 1, Width(t)).value;
      assert DecodeValue(inp, p, depth, fc) == DecodeArray(inp, p + 1 + Width(t), n, depth, fc);
      w := ListTold(inp, p, n, depth, fc);
    } else if 0x80 <= t <= 0x8F || t == 0xDE || t == 0xDF {
      var n := if t <= 0x8F then t - 0x80 else ReadBig(inp, p + 1, Width(t)).value;
      assert DecodeValue(inp, p, depth, fc) == DecodeMap(inp, p + 1 + Width(t), n, depth, fc);
      w := DictTold(inp, p, n, depth, fc);
    } else {
      ScalarTag(inp, p, depth, fc);
      w := ScalarTold(inp, p, depth, fc);
    }
  }

  lemma {:induction false} ListTold(inp: Bytes, p: nat, n: nat, depth: nat, fc: FloatCodec) returns (w: Wire)
    requires p < |inp| && p + 1 + Width(inp[p]) <= |inp|
    requires var t := inp[p]; (0x90 <= t <= 0x9F && n == t - 0x90)
                              || ((t == 0xDC || t == 0xDD) && ReadBig(inp, p + 1, Width(t)) == Some(n))
    requires DecodeArray(inp, p + 1 + Width(inp[p]), n, depth, fc).Ok?
    ensures var r := DecodeArray(inp, p + 1 + Width(inp[p]), n, depth, fc); Told(w, inp, p, depth, r.value, r.pos, fc)
    decreases |inp| - p - 1, 5
  {
    hide DecodeItems, ReadBig, ItemBytes, BigEndian, Holds, MeansItems;
    var q := p + 1 + Width(inp[p]);
    var items := ItemsTold(inp, q, n, depth + 1, [], fc);
    NoItemsBefore(MeansItems(items, fc));
    TaggedStands(inp, p, n, ItemBytes(items));
    w := List(inp[p], items);
  }

  lemma {:induction false} ItemsTold(inp: Bytes, p: nat, n: nat, depth: nat, done: seq<Json>, fc: FloatCodec)
    returns (items: seq<Wire>)
    requires p <= |inp| && DecodeItems(inp, p, n, depth, done, fc).Ok?
    ensures |items| == n && forall i :: 0 <= i < n ==> Good(items[i]) && Shallow(items[i], 512 - depth)
    ensures var r := DecodeItems(inp, p, n, depth, done, fc);
            Holds(inp, p, ItemBytes(items)) && r.pos == p + |ItemBytes(items)| && r.value == done + MeansItems(items, fc)
    decreases |inp| - p, 3
  {
    hide *;
    if n == 0 {
      items := [];
      DecodesNoItems(inp, p, depth, done, fc);
      ItemsUnfold(items, fc);
      NothingAfter(done);
      EmptyHolds(inp, p);
    } else {
      var e := ItemsSplit(inp, p, n, depth, done, fc);
      var w := ValueTold(inp, p, depth, fc);
      var v := Means(w, fc);
      ToldParts(w, inp, p, depth, DecodeValue(inp, p, depth, fc).value, e, fc);
      var rest := ItemsTold(inp, e, n - 1, depth, done + [v], fc);
      items := [w] + rest;
      assert items[1..] == rest;
      DecodesItem(inp, p, n, depth, done, e, v, fc);
      ItemsUnfold(items, fc);
      AfterOne(done, v, MeansItems(rest, fc));
      HoldsTogether(inp, p, WireBytes(w), ItemBytes(rest));
    }
  }

  lemma ToldParts(w: Wire, inp: Bytes, p: nat, depth: nat, v: Json, e: nat, fc: FloatCodec)
    requires Told(w, inp, p, depth, v, e, fc)
    ensures Good(w) && Shallow(w, 512 - depth) && Holds(inp, p, WireBytes(w)) && e == p + |WireBytes(w)| && Means(w, fc) == v
  {
  }

  lemma ItemsSplit(inp: Bytes, p: nat, n: nat, depth: nat, done: seq<Json>, fc: FloatCodec) returns (e: nat)
    requires p <= |inp| && n > 0 && DecodeItems(inp, p, n, depth, done, fc).Ok?
    ensures p < e <= |inp| && DecodeValue(inp, p, depth, fc).Ok? && DecodeValue(inp, p, depth, fc).pos == e
    ensures DecodeItems(inp, e, n - 1, depth, done + [DecodeValue(inp, p, depth, fc).value], fc).Ok?
  {
    hide DecodeValue;
    e := DecodeValue(inp, p, depth, fc).pos;
  }

  lemma EmptyHolds(inp: Bytes, p: nat)
    requires p <= |inp|
    ensures Holds(inp, p, [])
  {
  }

  lemma HoldsTogether(inp: Bytes, p: nat, a: Bytes, b: Bytes)
    requires Holds(inp, p, a) && Holds(inp, p + |a|, b)
    ensures Holds(inp, p, a + b)
  {
    assert inp[p..p + |a + b|] == inp[p..p + |a|] + inp[p + |a|..p + |a| + |b|];
  }

  lemma {:induction false} DictTold(inp: Bytes, p: nat, n: nat, depth: nat, fc: FloatCodec) returns (w: Wire)
    requires p < |inp| && p + 1 + Width(inp[p]) <= |inp|
    requires var t := inp[p]; (0x80 <= t <= 0x8F && n == t - 0x80)
                              || ((t == 0xDE || t == 0xDF) && ReadBig(inp, p + 1, Width(t)) == Some(n))
    requires DecodeMap(inp, p + 1 + Width(inp[p]), n, depth, fc).Ok?
    ensures var r := DecodeMap(inp, p + 1 + Width(inp[p]), n, depth, fc); Told(w, inp, p, depth, r.value, r.pos, fc)
    decreases |inp| - p - 1, 5
  {
    hide DecodeEntries, ReadBig, EntryBytes, BigEndian, Holds, MeansEntries, GoodEntry, ShallowEntry;
    var q := p + 1 + Width(inp[p]);
    var es := EntriesTold(inp, q, n, depth + 1, [], fc);
    TaggedStands(inp, p, n, EntryBytes(es));
    w := Dict(inp[p], es);
  }

  lemma {:induction false} EntriesTold(inp: Bytes, p: nat, n: nat, depth: nat, done: seq<Member>, fc: FloatCodec)
    returns (es: seq<Entry>)
    requires p <= |inp| && DecodeEntries(inp, p, n, depth, done, fc).Ok?
    ensures |es| == n && forall i :: 0 <= i < n ==> GoodEntry(es[i]) && ShallowEntry(es[i], 512 - depth)
    ensures var r := DecodeEntries(inp, p, n, depth, done, fc);
            Holds(inp, p, EntryBytes(es)) && r.pos == p + |EntryBytes(es)| && r.value == MeansEntries(es, done, fc)
    decreases |inp| - p, 3
  {
    hide *;
    if n == 0 {
      es := [];
      DecodesNoEntries(inp, p, depth, done, fc);
      EntriesUnfold(es, done, fc);
      EmptyHolds(inp, p);
    } else {
      var k, e := EntriesSplit(inp, p, n, depth, done, fc);
      var one := EntryTold(inp, p, depth, k, e, fc);
      var m := MeansEntry(one, fc);
      var rest := EntriesTold(inp, e, n - 1, depth, SetMember(done, m.key, m.value), fc);
      es := [one] + rest;
      assert es[1..] == rest;
      DecodesEntry(inp, p, n, depth, done, k, e, m, fc);
      EntriesUnfold(es, done, fc);
      HoldsTogether(inp, p, OneEntryBytes(one), EntryBytes(rest));
    }
  }

  /** The first entry of several ends before the others begin. */
  lemma EntriesSplit(inp: Bytes, p: nat, n: nat, depth: nat, done: seq<Member>, fc: FloatCodec)
    returns (k: nat, e: nat)
    requires p <= |inp| && n > 0 && DecodeEntries(inp, p, n, depth, done, fc).Ok?
    ensures p < k < e <= |inp|
    ensures DecodeKey(inp, p, depth, fc).Ok? && DecodeKey(inp, p, depth, fc).pos == k
    ensures DecodeValue(inp, k, depth, fc).Ok? && DecodeValue(inp, k, depth, fc).pos == e
    ensures DecodeEntries(inp, e, n - 1, depth,
                          SetMember(done, DecodeKey(inp, p, depth, fc).value, DecodeValue(inp, k, depth, fc).value), fc).Ok?
  {
    hide DecodeKey, DecodeValue, SetMember;
    k := DecodeKey(inp, p, depth, fc).pos;
    e := DecodeValue(inp, k, depth, fc).pos;
  }

  lemma {:induction false} EntryTold(inp: Bytes, p: nat, depth: nat, k: nat, e: nat, fc: FloatCodec) returns (one: Entry)
    requires p < k < e <= |inp|
    requires DecodeKey(inp, p, depth, fc).Ok? && DecodeKey(inp, p, depth, fc).pos == k
    requires DecodeValue(inp, k, depth, fc).Ok? && DecodeValue(inp, k, depth, fc).pos == e
    ensures GoodEntry(one) && ShallowEntry(one, 512 - depth)
    ensures Holds(inp, p, OneEntryBytes(one)) && e == p + |OneEntryBytes(one)|
    ensures MeansEntry(one, fc) == Member(DecodeKey(inp, p, depth, fc).value, DecodeValue(inp, k, depth, fc).value)
    decreases |inp| - p, 2, 1
  {
    hide DecodeKey, DecodeValue, Holds, WireBytes, Means, KeyText, Good, Shallow;
    var key := KeyTold(inp, p, depth, fc);
    var w := ValueTold(inp, k, depth, fc);
    one := Entry(key, w);
    HoldsTogether(inp, p, WireBytes(key), WireBytes(w));
  }

  lemma {:induction false} KeyTold(inp: Bytes, p: nat, depth: nat, fc: FloatCodec) returns (k: Wire)
    requires p <= |inp| && DecodeKey(inp, p, depth, fc).Ok?
    ensures var r := DecodeKey(inp, p, depth, fc);
            Good(k) && Shallow(k, 512 - depth) && Holds(inp, p, WireBytes(k)) && r.pos == p + |WireBytes(k)|
            && r.value == KeyText(k, fc)
    decreases |inp| - p, 2, 0
  {
    if p < |inp| && IsStringTag(inp[p]) {
      k := StringKeyTold(inp, p, depth, fc);
    } else {
      OtherKey(inp, p, depth, fc);
      hide DecodeKey, DecodeValue, Means, WireBytes, Good, Shallow, SerializerSpec.Serialize, Holds;
      k := ValueTold(inp, p, depth, fc);
      NotRaw(k, inp, p, inp[p]);
    }
  }

  lemma OtherKey(inp: Bytes, p: nat, depth: nat, fc: FloatCodec)
    requires p <= |inp| && DecodeKey(inp, p, depth, fc).Ok? && (p < |inp| ==> !IsStringTag(inp[p]))
    ensures p < |inp| && DecodeValue(inp, p, depth, fc).Ok?
    ensures var v := DecodeValue(inp, p, depth, fc);
            DecodeKey(inp, p, depth, fc)
            == Ok(SerializerSpec.Serialize(v.value, SerializerSpec.PrintOptions(0, false, false)), v.pos)
  {
    hide DecodeValue, SerializerSpec.Serialize, ReadBig, DecodeRaw;
  }

  lemma StringKeyTold(inp: Bytes, p: nat, depth: nat, fc: FloatCodec) returns (k: Wire)
    requires p < |inp| && IsStringTag(inp[p]) && DecodeKey(inp, p, depth, fc).Ok?
    ensures var r := DecodeKey(inp, p, depth, fc);
            Good(k) && Shallow(k, 512 - depth) && Holds(inp, p, WireBytes(k)) && r.pos == p + |WireBytes(k)|
            && r.value == KeyText(k, fc)
  {
    var n := RawKey(inp, p, depth, fc);
    var q := p + 1 + Width(inp[p]);
    RawStands(inp, q, n);
    var s := inp[q..q + n];
    hide DecodeKey, Holds, WireBytes, Good, DecodeRaw, Announces;
    RawWhole(inp, p, n);
    k := Wire.Raw(inp[p], s);
  }

  lemma RawKey(inp: Bytes, p: nat, depth: nat, fc: FloatCodec) returns (n: nat)
    requires p < |inp| && IsStringTag(inp[p]) && DecodeKey(inp, p, depth, fc).Ok?
    ensures Announces(inp, p, n) && DecodeRaw(inp, p + 1 + Width(inp[p]), n).Ok?
    ensures DecodeKey(inp, p, depth, fc) == DecodeRaw(inp, p + 1 + Width(inp[p]), n)
  {
    var t := inp[p];
    TagTable(t);
    hide TagOf, ReadBig, DecodeRaw, DecodeValue;
    n := if t <= 0xBF then t - 0xA0 else ReadBig(inp, p + 1, Width(t)).value;
  }

  lemma RawStands(inp: Bytes, q: nat, n: nat)
    requires DecodeRaw(inp, q, n).Ok?
    ensures q + n <= |inp| && Holds(inp, q, inp[q..q + n]) && DecodeRaw(inp, q, n) == Ok(CString(inp[q..q + n]), q + n)
  {
  }

  lemma NotRaw(k: Wire, inp: Bytes, p: nat, t: byte)
    requires Good(k) && Holds(inp, p, WireBytes(k)) && p < |inp| && inp[p] == t && !IsStringTag(t)
    ensures !k.Raw?
  {
    FirstIsTag(k);
    HoldsAt(inp, p, WireBytes(k), 0);
    hide WireBytes, Holds;
  }

  /** At every position and depth the decoder reads the wire values of the table, and nothing else. */
  lemma DecodesExactly(inp: Bytes, p: nat, depth: nat, v: Json, e: nat, fc: FloatCodec)
    requires p <= |inp|
    ensures DecodeValue(inp, p, depth, fc) == Ok(v, e) <==> exists w :: Told(w, inp, p, depth, v, e, fc)
  {
    hide DecodeValue, Good, Shallow, WireBytes, Holds, Means;
    if DecodeValue(inp, p, depth, fc) == Ok(v, e) {
      var w := ValueTold(inp, p, depth, fc);
    }
    if w :| Told(w, inp, p, depth, v, e, fc) { WireReads(w, inp, p, depth, fc); }
  }

  // --- The encoder writes the shortest form ---

  function WholeWire(i: int): Wire
    requires -TWO_63 <= i < TWO_64
  {
    if 0 <= i <= 127 then Lone(i)
    else if -32 <= i < 0 then Lone(256 + i)
    else if 0 <= i < 0x100 then Sized(0xCC, i)
    else if 0 <= i < 0x1_0000 then Sized(0xCD, i)
    else if 0 <= i < 0x1_0000_0000 then Sized(0xCE, i)
    else if 0 <= i then Sized(0xCF, i)
    else if -0x80 <= i then Sized(0xD0, i + 0x100)
    else if -0x8000 <= i then Sized(0xD1, i + 0x1_0000)
    else if -0x8000_0000 <= i then Sized(0xD2, i + 0x1_0000_0000)
    else Sized(0xD3, i + 0x1_0000_0000_0000_0000)
  }

  lemma WholeEncodes(i: int)
    requires -TWO_63 <= i < TWO_64
    ensures EncodeInt(i) == WireBytes(WholeWire(i)) && Good(WholeWire(i))
  {
    Powers();
    hide Power256, BigEndian;
    if i < -32 {
      if i >= -128 { NegativeBytes(i, 1); }
      else if i >= -32768 { NegativeBytes(i, 2); }
      else if i >= -2147483648 { NegativeBytes(i, 4); }
      else { NegativeBytes(i, 8); }
    }
  }

  /** No other wire integer of this value is shorter. */
  lemma WholeIsShortest(i: int, w: Wire)
    requires -TWO_63 <= i < TWO_64 && Good(w)
    requires (w.Lone? && (w.tag <= 0x7F || w.tag >= 0xE0) && i == (if w.tag <= 0x7F then w.tag as int else w.tag as int - 256))
             || (w.Sized? && 0xCC <= w.tag <= 0xCF && i == w.u)
             || (w.Sized? && 0xD0 <= w.tag <= 0xD3 && i == TwosComplement(w.u, Width(w.tag)))
    ensures |EncodeInt(i)| <= |WireBytes(w)|
  {
    WholeEncodes(i);
    Powers();
    hide Power256, BigEndian, EncodeInt;
  }

  function LengthTag(n: nat, fixed: byte, most: nat, one: byte, two: byte, four: byte): byte
    requires fixed + most < 256
  {
    if n <= most then fixed + n else if one != 0 && n < 0x100 then one else if n < 0x1_0000 then two else four
  }

  function Wired(v: Json, fc: FloatCodec): Wire
    requires Codable(v, fc)
    decreases v, 1
  {
    match v
    case Null => Lone(0xC0)
    case Bool(b) => Lone(if b then 0xC3 else 0xC2)
    case Num(Int(i)) => WholeWire(i)
    case Num(Float(t)) =>
      if fc.whole(t).Some? then WholeWire(fc.whole(t).value)
      else if fc.single(t).Some? then Sized(0xCA, fc.single(t).value) else Sized(0xCB, fc.double(t))
    case Str(s) => WiredString(s)
    case Arr(items) => List(LengthTag(|items|, 0x90, 15, 0, 0xDC, 0xDD), WiredItems(items, fc))
    case Obj(ms) => Dict(LengthTag(|ms|, 0x80, 15, 0, 0xDE, 0xDF), WiredMembers(ms, fc))
  }

  function WiredString(s: Bytes): Wire { Wire.Raw(LengthTag(|s|, 0xA0, 31, 0xD9, 0xDA, 0xDB), s) }

  function WiredItems(items: seq<Json>, fc: FloatCodec): (r: seq<Wire>)
    requires forall i :: 0 <= i < |items| ==> Codable(items[i], fc)
    ensures |r| == |items|
    decreases items, 0
  {
    if items == [] then [] else [Wired(items[0], fc)] + WiredItems(items[1..], fc)
  }

  function WiredMembers(ms: seq<Member>, fc: FloatCodec): (r: seq<Entry>)
    requires forall i :: 0 <= i < |ms| ==> CodableString(ms[i].key) && Codable(ms[i].value, fc)
    ensures |r| == |ms|
    decreases ms, 0
  {
    if ms == [] then [] else [Entry(WiredString(ms[0].key), Wired(ms[0].value, fc))] + WiredMembers(ms[1..], fc)
  }

  lemma StringWired(s: Bytes)
    requires CodableString(s)
    ensures EncodeStr(s) == WireBytes(WiredString(s))
  {
    hide BigEndian;
    BigNothing(|s|);
    NothingMore([LengthTag(|s|, 0xA0, 31, 0xD9, 0xDA, 0xDB)]);
  }

  lemma BigNothing(n: nat)
    ensures BigEndian(n, 0) == []
  {
  }

  /** Every tree is written with the tags of the table, each in its shortest form. */
  lemma {:induction false} EncodesWired(v: Json, fc: FloatCodec)
    requires Codable(v, fc)
    ensures Encode(v, fc) == WireBytes(Wired(v, fc))
    decreases v, 1
  {
    hide BigEndian, EncodeStr, EncodeInt, WholeWire, WiredString;
    match v
    case Num(Int(i)) => WholeEncodes(i);
    case Num(Float(t)) => if fc.whole(t).Some? { WholeEncodes(fc.whole(t).value); }
    case Str(s) => StringWired(s);
    case Arr(items) =>
      ItemsWired(items, fc);
      ArrayWired(items, fc);
    case Obj(ms) =>
      MembersWired(ms, fc);
      ObjectWired(ms, fc);
    case _ =>
  }

  lemma ArrayWired(items: seq<Json>, fc: FloatCodec)
    requires Codable(Arr(items), fc) && EncodeItems(items, fc) == ItemBytes(WiredItems(items, fc))
    ensures Encode(Arr(items), fc) == WireBytes(Wired(Arr(items), fc))
  {
    hide BigEndian, EncodeItems, ItemBytes, WiredItems;
    BigNothing(|items|);
    NothingMore([LengthTag(|items|, 0x90, 15, 0, 0xDC, 0xDD)]);
  }

  lemma ObjectWired(ms: seq<Member>, fc: FloatCodec)
    requires Codable(Obj(ms), fc) && EncodeMembers(ms, fc) == EntryBytes(WiredMembers(ms, fc))
    ensures Encode(Obj(ms), fc) == WireBytes(Wired(Obj(ms), fc))
  {
    hide BigEndian, EncodeMembers, EntryBytes, WiredMembers;
    BigNothing(|ms|);
    NothingMore([LengthTag(|ms|, 0x80, 15, 0, 0xDE, 0xDF)]);
  }

  lemma {:induction false} ItemsWired(items: seq<Json>, fc: FloatCodec)
    requires forall i :: 0 <= i < |items| ==> Codable(items[i], fc)
    ensures EncodeItems(items, fc) == ItemBytes(WiredItems(items, fc))
    decreases items, 0
  {
    hide Encode, WireBytes, Wired;
    if items != [] {
      EncodesWired(items[0], fc);
      ItemsWired(items[1..], fc);
      assert WiredItems(items, fc)[1..] == WiredItems(items[1..], fc);
    }
  }

  lemma {:induction false} MembersWired(ms: seq<Member>, fc: FloatCodec)
    requires forall i :: 0 <= i < |ms| ==> CodableString(ms[i].key) && Codable(ms[i].value, fc)
    ensures EncodeMembers(ms, fc) == EntryBytes(WiredMembers(ms, fc))
    decreases ms, 0
  {
    hide Encode, WireBytes, Wired, EncodeStr, WiredString;
    if ms != [] {
      StringWired(ms[0].key);
      EncodesWired(ms[0].value, fc);
      MembersWired(ms[1..], fc);
      assert WiredMembers(ms, fc)[1..] == WiredMembers(ms[1..], fc);
    }
  }

  /** Numbers are written with their most significant byte first. */
  lemma BigEndianSpelled(v: nat)
    ensures BigEndian(v, 1) == [v % 256]
    ensures BigEndian(v, 2) == [v / 256 % 256, v % 256]
    ensures BigEndian(v, 4) == [v / 16777216 % 256, v / 65536 % 256, v / 256 % 256, v % 256]
    ensures BigEndian(v, 8) == BigEndian(v / 0x1_0000_0000, 4) + BigEndian(v, 4)
  {
    BigOne(v);
    BigTwo(v);
    BigFour(v);
    BigEight(v);
    hide BigEndian;
  }

  lemma BigOne(v: nat)
    ensures BigEndian(v, 1) == [v % 256]
  {
    BigNothing(v / 256);
  }

  lemma BigTwo(v: nat)
    ensures BigEndian(v, 2) == [v / 256 % 256, v % 256]
  {
    BigOne(v / 256);
  }

  lemma Quarters(v: nat)
    ensures v / 65536 == v / 256 / 256 && v / 16777216 == v / 65536 / 256 && v / 0x1_0000_0000 == v / 16777216 / 256
  {
  }

  lemma BigFour(v: nat)
    ensures BigEndian(v, 4) == [v / 16777216 % 256, v / 65536 % 256, v / 256 % 256, v % 256]
  {
    Quarters(v);
    BigTwo(v / 65536);
    BigStep(v, 4);
    BigStep(v / 256, 3);
    hide BigEndian;
  }

  lemma BigStep(v: nat, count: nat)
    requires count > 0
    ensures BigEndian(v, count) == BigEndian(v / 256, count - 1) + [v % 256]
  {
  }

  lemma BigEight(v: nat)
    ensures BigEndian(v, 8) == BigEndian(v / 0x1_0000_0000, 4) + BigEndian(v, 4)
  {
    Quarters(v);
    BigStep(v, 8);
    BigStep(v / 256, 7);
    BigStep(v / 65536, 6);
    BigStep(v / 16777216, 5);
    BigFour(v);
    hide BigEndian;
  }
}
