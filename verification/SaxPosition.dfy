/** Where the streaming parser says it is: offset, line and column of the byte it stopped at. */
module SaxPosition {
  import opened Bytes
  import opened Options
  import opened SaxSpec

  /** The places of line ends. */
  function LineEnds(t: Bytes): set<nat> { set i: nat | i < |t| && t[i] == 0x0A }

  const MARK: Bytes := [0xEF, 0xBB, 0xBF]

  /** The position after the bytes t: lines and columns count from 1, and a byte order mark has no columns. */
  predicate Located(s: Sax, t: Bytes)
  {
    && s.offset == |t| && s.bom <= 3 && s.bom <= |t| && t[..s.bom] == MARK[..s.bom]
    && (s.bom == 0 || s.bom == 3 || s.bom == |t| || s.core.mode.Error?)
    && s.line == 1 + |LineEnds(t)|
    && (LineEnds(t) == {} ==> s.column == 1 + |t| - s.bom)
    && (forall i :: 0 <= i < |t| && t[i] == 0x0A && (forall j :: i < j < |t| ==> t[j] != 0x0A) ==> s.column == |t| - i)
  }

  lemma OneMore(t: Bytes, b: byte)
    ensures LineEnds(t + [b]) == if b == 0x0A then LineEnds(t) + {|t|} else LineEnds(t)
    ensures |LineEnds(t + [b])| == |LineEnds(t)| + (if b == 0x0A then 1 else 0)
  {
    var u := t + [b];
    assert forall i :: 0 <= i < |t| ==> u[i] == t[i];
    assert LineEnds(u) == if b == 0x0A then LineEnds(t) + {|t|} else LineEnds(t);
  }

  lemma FreshLocated()
    ensures Located(Fresh, [])
  {
    assert LineEnds([]) == {};
  }

  lemma AdvanceLocated(s: Sax, c: Core, t: Bytes, b: byte)
    requires Located(s, t) && !c.mode.Error? && (s.bom == 0 || s.bom == 3)
    ensures Located(Advance(s, c, b), t + [b])
  {
    OneMore(t, b);
    var u, r := t + [b], Advance(s, c, b);
    hide LineEnds;
    forall i | 0 <= i < |u| && u[i] == 0x0A && (forall j :: i < j < |u| ==> u[j] != 0x0A)
      ensures r.column == |u| - i
    {
      if b != 0x0A {
        assert t[i] == u[i];
        forall j | i < j < |t| ensures t[j] != 0x0A { assert u[j] == t[j]; }
      } else {
        assert u[|t|] == 0x0A;
      }
    }
    assert u[..s.bom] == t[..s.bom];
  }

  lemma MarkLocated(s: Sax, t: Bytes)
    requires Located(s, t) && s.bom == |t| < 3
    ensures Located(s.(bom := s.bom + 1, offset := s.offset + 1), t + [BomByte(s.bom)])
  {
    var b := BomByte(s.bom);
    var u := t + [b];
    OneMore(t, b);
    assert t == MARK[..s.bom];
    assert forall i :: 0 <= i < |u| ==> u[i] != 0x0A;
    assert LineEnds(u) == {} && LineEnds(t) == {};
    assert u[..|u|] == MARK[..|u|];
  }

  /** Until the byte order mark is complete, nothing has changed the core. */
  predicate MarkFirst(s: Sax) { 0 < s.bom < 3 && !s.core.mode.Error? ==> AtBom(s) }

  /** A byte that is taken moves the position; the one that is rejected does not. */
  lemma StepLocated(o: SaxOptions, s: Sax, t: Bytes, b: byte)
    requires Located(s, t) && MarkFirst(s) && !s.core.mode.Error?
    ensures var r := SaxStep(o, s, b); if r.core.mode.Error? then Located(r, t) else Located(r, t + [b])
  {
    var r := SaxStep(o, s, b);
    hide Step, LineEnds, Located;
    BomIs(s, t);
    if AtBom(s) && b == BomByte(s.bom) {
      MarkLocated(s, t);
    } else if r.core.mode.Error? {
      StopLocated(s, r.core, t);
    } else {
      AdvanceLocated(s, r.core, t, b);
    }
  }

  lemma BomIs(s: Sax, t: Bytes)
    requires Located(s, t) && !s.core.mode.Error?
    ensures s.offset == |t| && s.bom <= 3 && (s.bom == 0 || s.bom == 3 || s.bom == |t|)
    ensures s.bom == |t| && 0 < s.bom < 3 ==> s.offset < 3
  {
    hide LineEnds;
  }

  lemma StopLocated(s: Sax, c: Core, t: Bytes)
    requires Located(s, t) && c.mode.Error?
    ensures Located(s.(core := c), t)
  {
    hide LineEnds;
  }

  lemma {:induction false} FeedLocated(o: SaxOptions, s: Sax, t: Bytes, data: Bytes)
    requires Located(s, t) && MarkFirst(s)
    ensures var r := Feed(o, s, data);
            && |t| <= r.offset <= |t| + |data| && Located(r, t + data[..r.offset - |t|])
            && (s.core.mode.Error? ==> r == s) && (!r.core.mode.Error? ==> r.offset == |t| + |data|)
            && (r.core.mode.Error? && !s.core.mode.Error? ==> r.offset < |t| + |data|)
    decreases |data|
  {
    hide LineEnds, Located, SaxStep;
    var r := Feed(o, s, data);
    if data == [] || s.core.mode.Error? {
      LocatedOffset(s, t);
      assert t + data[..0] == t;
    } else {
      var b := data[0];
      StepLocated(o, s, t, b);
      StepMark(o, s, b);
      var u := SaxStep(o, s, b);
      if u.core.mode.Error? {
        FeedLocated(o, u, t, data[1..]);
        LocatedOffset(u, t);
        assert t + data[..0] == t;
      } else {
        FeedLocated(o, u, t + [b], data[1..]);
        var k := r.offset - |t|;
        assert data[..k] == [b] + data[1..][..k - 1];
        assert t + data[..k] == t + [b] + data[1..][..k - 1];
      }
    }
  }

  lemma LocatedOffset(s: Sax, t: Bytes)
    requires Located(s, t)
    ensures s.offset == |t|
  {
  }

  lemma StepMark(o: SaxOptions, s: Sax, b: byte)
    requires MarkFirst(s) && !s.core.mode.Error?
    ensures MarkFirst(SaxStep(o, s, b))
  {
    hide Step;
  }

  /** After any input the position is that of the first byte that was rejected, or the end of the input. */
  lemma PositionIs(o: SaxOptions, data: Bytes)
    ensures var r := Feed(o, Fresh, data);
            && r.offset <= |data| && Located(r, data[..r.offset])
            && (if r.core.mode.Error? then r.offset < |data| else r.offset == |data|)
  {
    FreshLocated();
    hide LineEnds, Located, Feed;
    FeedLocated(o, Fresh, [], data);
    var n := Feed(o, Fresh, data).offset;
    assert [] + data[..n] == data[..n];
  }
}
