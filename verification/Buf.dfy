/** The growable byte buffer that every writer appends to, and the string and number writers on it. */
module Buf {
  import opened Bytes
  import opened Texts
  import opened Utf8
  import opened Decimal
  import opened JsonValue
  import opened SerializerSpec

  class Buffer {
    var data: array<byte>
    var len: nat

    /** One byte is always kept for the terminator. */
    ghost predicate Valid()
      reads this
    {
      len < data.Length || (len == 0 && data.Length == 0)
    }

    ghost function Contents(): (s: Bytes)
      requires Valid()
      reads this, data
    {
      data[..len]
    }

    constructor (initial: nat)
      ensures Valid() && Contents() == [] && fresh(data)
    {
      data := new byte[0];
      len := 0;
      new;
      if initial > 0 { Reserve(initial); }
    }

    /** Makes room for `extra` more bytes and the terminator, doubling the capacity as often as needed. */
    method Reserve(extra: nat)
      requires Valid()
      modifies this`data
      ensures Valid() && Contents() == old(Contents()) && len + extra + 1 <= data.Length
      ensures data == old(data) || fresh(data)
    {
      if len + extra + 1 <= data.Length { return; }
      var cap := if data.Length > 0 then data.Length else 64;
      while cap < len + extra + 1
        invariant cap > 0 && cap >= data.Length
        decreases len + extra + 1 - cap
      {
        cap := cap * 2;
      }
      var grown, from := new byte[cap], data;
      var i := 0;
      while i < len
        invariant 0 <= i <= len <= grown.Length && data == from && len <= from.Length
        invariant grown[..i] == from[..i] && from[..len] == old(Contents())
      {
        grown[i] := from[i];
        i := i + 1;
      }
      data := grown;
    }

    method PutC(c: byte)
      requires Valid()
      modifies this, data
      ensures Valid() && Contents() == old(Contents()) + [c]
      ensures data == old(data) || fresh(data)
    {
      Reserve(1);
      data[len] := c;
      len := len + 1;
    }

    method Append(s: Bytes)
      requires Valid()
      modifies this, data
      ensures Valid() && Contents() == old(Contents()) + s
      ensures data == old(data) || fresh(data)
    {
      if s == [] { return; }
      Reserve(|s|);
      var d := data;
      var i := 0;
      while i < |s|
        invariant 0 <= i <= |s| && data == d && len == old(len) && len + |s| + 1 <= d.Length
        invariant d[..len + i] == old(Contents()) + s[..i]
      {
        d[len + i] := s[i];
        i := i + 1;
      }
      len := len + |s|;
    }

    method PutUnitEscape(u: nat)
      requires Valid() && u < 0x10000
      modifies this, data
      ensures Valid() && Contents() == old(Contents()) + UnitEscape(u)
      ensures data == old(data) || fresh(data)
    {
      Append([BACKSLASH, LOWER_U, HexChar(u / 4096), HexChar(u / 256 % 16), HexChar(u / 16 % 16), HexChar(u % 16)]);
    }

    /** The escape of the character at i, which is not plain; gives the position after it. */
    method PutEscape(s: Bytes, i: nat, escapeUnicode: bool) returns (next: nat)
      requires Valid() && i < |s| && s[i] != 0 && !PlainByte(s[i], escapeUnicode)
      modifies this, data
      ensures Valid() && i < next <= |s| && (data == old(data) || fresh(data))
      ensures Contents() + StringBody(s, next, escapeUnicode) == old(Contents()) + StringBody(s, i, escapeUnicode)
    {
      hide UnitEscape, StringBody;
      var c := s[i];
      next := i + 1;
      if c >= 0x80 {
        next := PutWideEscape(s, i, escapeUnicode);
        return;
      }
      BodyOfEscape(s, i, escapeUnicode);
      Associates(Contents(), ShortEscape(c), StringBody(s, i + 1, escapeUnicode));
      if c == QUOTE || c == BACKSLASH { Append([BACKSLASH, c]); }
      else if c == 0x08 { Append([BACKSLASH, 0x62]); }
      else if c == 0x0C { Append([BACKSLASH, 0x66]); }
      else if c == NEWLINE { Append([BACKSLASH, 0x6E]); }
      else if c == RETURN { Append([BACKSLASH, 0x72]); }
      else if c == TAB { Append([BACKSLASH, 0x74]); }
      else { PutUnitEscape(c); }
    }

    lemma BodyOfEscape(s: Bytes, i: nat, escapeUnicode: bool)
      requires i < |s| && s[i] != 0 && s[i] < 0x80 && !PlainByte(s[i], escapeUnicode)
      ensures StringBody(s, i, escapeUnicode) == ShortEscape(s[i]) + StringBody(s, i + 1, escapeUnicode)
    {
    }

    method PutWideEscape(s: Bytes, i: nat, escapeUnicode: bool) returns (next: nat)
      requires Valid() && i < |s| && s[i] >= 0x80 && escapeUnicode
      modifies this, data
      ensures Valid() && i < next <= |s| && (data == old(data) || fresh(data))
      ensures Contents() + StringBody(s, next, escapeUnicode) == old(Contents()) + StringBody(s, i, escapeUnicode)
    {
      hide UnitEscape, Utf8Decode;
      var d := Utf8Decode(s, i);
      if d.len == 0 {
        PutUnitEscape(0xFFFD);
        return i + 1;
      }
      if d.cp >= 0x10000 {
        var cp := d.cp - 0x10000;
        PutUnitEscape(0xD800 + cp / 1024);
        PutUnitEscape(0xDC00 + cp % 1024);
      } else {
        PutUnitEscape(d.cp);
      }
      assert Contents() == old(Contents()) + CodePointEscape(d.cp);
      return i + d.len;
    }

    /** Writes a string literal, copying runs of plain characters at once. */
    method JsonString(s: Bytes, escapeUnicode: bool)
      requires Valid()
      modifies this, data
      ensures Valid() && Contents() == old(Contents()) + PrintString(s, escapeUnicode)
      ensures data == old(data) || fresh(data)
    {
      hide PlainByte, StringBody;
      PutC(QUOTE);
      ghost var start := Contents();
      var i, run := 0, 0;
      NothingBefore(StringBody(s, 0, escapeUnicode));
      while i < |s| && s[i] != 0
        invariant 0 <= run <= i <= |s| && Valid() && (data == old(data) || fresh(data))
        invariant Contents() + (s[run..i] + StringBody(s, i, escapeUnicode)) == start + StringBody(s, 0, escapeUnicode)
      {
        if PlainByte(s[i], escapeUnicode) {
          RunGrows(s, run, i, escapeUnicode);
          i := i + 1;
          continue;
        }
        Associates(Contents(), s[run..i], StringBody(s, i, escapeUnicode));
        Append(s[run..i]);
        i := PutEscape(s, i, escapeUnicode);
        run := i;
        NothingBefore(StringBody(s, i, escapeUnicode));
        assert s[run..i] == [];
      }
      BodyEnds(s, i, escapeUnicode);
      Associates(Contents(), s[run..i], []);
      Append(s[run..i]);
      assert Contents() + [] == Contents();
      PutC(QUOTE);
      Associates(old(Contents()), [QUOTE], StringBody(s, 0, escapeUnicode));
      Associates(old(Contents()), [QUOTE] + StringBody(s, 0, escapeUnicode), [QUOTE]);
    }

    lemma BodyEnds(s: Bytes, i: nat, escapeUnicode: bool)
      requires i <= |s| && (i == |s| || s[i] == 0)
      ensures StringBody(s, i, escapeUnicode) == []
    {
    }

    lemma RunGrows(s: Bytes, run: nat, i: nat, escapeUnicode: bool)
      requires run <= i < |s| && s[i] != 0 && PlainByte(s[i], escapeUnicode)
      ensures s[run..i] + StringBody(s, i, escapeUnicode) == s[run..i + 1] + StringBody(s, i + 1, escapeUnicode)
    {
      assert s[run..i + 1] == s[run..i] + [s[i]];
    }

    /** The integer path writes the digits; any other number is written as the text that stands for it. */
    method JsonNumber(n: Number)
      requires Valid()
      modifies this, data
      ensures Valid() && Contents() == old(Contents()) + PrintNumber(n)
      ensures data == old(data) || fresh(data)
    {
      match n {
        case Int(i) =>
          if i < 0 {
            PutC(MINUS);
            Append(DecimalText(-i));
          } else {
            Append(DecimalText(i));
          }
        case Float(t) => Append(t);
      }
    }
  }
}
