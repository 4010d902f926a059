/** What the repairer writes for a token that looks like a number. */
module RepairedNumbers {
  import opened Bytes
  import opened Texts
  import opened Options
  import opened JsonValue
  import opened Scan
  import opened Decimal
  import opened SerializerSpec
  import opened Grammar
  import opened LooseText
  import opened NumberLaws
  import opened RepairedWords
  import EscapeLaws
  import RepairSpec

  // --- Numbers as they are ---

  /** A token is left alone exactly if it is in the number grammar. */
  lemma ExactIsNumber(t: Bytes)
    ensures IsNumberText(t) <==> IsExact(t)
  {
    hide *;
    NumberTextIs(t);
    NumbersExactly(t, 0, |t|);
    if IsExact(t) {
      var n :| GoodNumber(n) && NumberText(n) == t;
      WholeHolds(t);
    }
    if n :| GoodNumber(n) && Holds(t, 0, NumberText(n)) && |t| == |NumberText(n)| { HeldWhole(t, NumberText(n)); }
  }

  lemma NumberTextIs(t: Bytes)
    ensures IsNumberText(t) <==> ScanNumber(t, 0, |t|) == Some(|t|)
    ensures IsExact(t) <==> exists n :: GoodNumber(n) && NumberText(n) == t
    ensures Ended(t, |t|)
  {
    hide ScanNumber, GoodNumber, NumberText;
  }

  lemma WholeHolds(t: Bytes)
    ensures Holds(t, 0, t)
  {
  }

  lemma HeldWhole(t: Bytes, s: Bytes)
    requires Holds(t, 0, s) && |t| == |s|
    ensures t == s
  {
  }

  // --- What numbers are made of ---

  predicate Digital(c: byte) { 0x30 <= c <= 0x39 }

  /** A point is followed by a digit. */
  predicate Pointed(t: Bytes) { forall i :: 0 <= i < |t| && t[i] == 0x2E ==> i + 1 < |t| && Digital(t[i + 1]) }

  predicate Pointless(t: Bytes) { forall i :: 0 <= i < |t| ==> t[i] != 0x2E }

  lemma PointedJoin(a: Bytes, b: Bytes)
    requires Pointed(a) && Pointed(b)
    ensures Pointed(a + b)
  {
  }

  lemma PartsPointed(n: NumberToken)
    requires GoodNumber(n)
    ensures Pointed(MinusText(n.minus)) && Pointed(n.whole) && Pointed(FractionText(n.fraction))
    ensures Pointed(ExponentText(n.exponent))
  {
    if n.fraction.Some? { assert FractionText(n.fraction) == [0x2E] + n.fraction.value; }
    if n.exponent.Some? {
      var x := n.exponent.value;
      assert Pointless([x.letter]) && Pointless(SignText(x.sign)) && Pointless(x.digits);
      assert ExponentText(n.exponent) == [x.letter] + SignText(x.sign) + x.digits;
    }
  }

  lemma NumberPointed(n: NumberToken)
    requires GoodNumber(n)
    ensures Pointed(NumberText(n))
  {
    PartsPointed(n);
    NumberParts(n);
    hide *;
    PointedJoin(MinusText(n.minus), n.whole);
    PointedJoin(MinusText(n.minus) + n.whole, FractionText(n.fraction));
    PointedJoin(MinusText(n.minus) + n.whole + FractionText(n.fraction), ExponentText(n.exponent));
  }

  predicate NumberByte(c: byte) { Digital(c) || IsSign(c) || c == 0x2E || c == 0x65 || c == 0x45 }

  predicate NumberBytes(t: Bytes) { forall i :: 0 <= i < |t| ==> NumberByte(t[i]) }

  lemma BytesJoin(a: Bytes, b: Bytes)
    requires NumberBytes(a) && NumberBytes(b)
    ensures NumberBytes(a + b)
  {
  }

  lemma PartBytes(n: NumberToken)
    requires GoodNumber(n)
    ensures NumberBytes(MinusText(n.minus)) && NumberBytes(n.whole) && NumberBytes(FractionText(n.fraction))
    ensures NumberBytes(ExponentText(n.exponent))
  {
  }

  lemma NumberHasBytes(n: NumberToken)
    requires GoodNumber(n)
    ensures NumberBytes(NumberText(n))
  {
    PartBytes(n);
    NumberParts(n);
    hide *;
    BytesJoin(MinusText(n.minus), n.whole);
    BytesJoin(MinusText(n.minus) + n.whole, FractionText(n.fraction));
    BytesJoin(MinusText(n.minus) + n.whole + FractionText(n.fraction), ExponentText(n.exponent));
  }

  /** A number begins with a digit, after a minus sign or not; no digit follows a first zero. */
  lemma NumberFront(n: NumberToken)
    requires GoodNumber(n)
    ensures var t, m := NumberText(n), |MinusText(n.minus)|;
            && |t| > m && Digital(t[m]) && (n.minus <==> t[0] == 0x2D)
            && (t[m] == 0x30 && |t| > m + 1 ==> !Digital(t[m + 1]))
  {
    Signed(n);
    TailIsNoDigit(n);
    var tail := FractionText(n.fraction) + ExponentText(n.exponent);
    var digits := n.whole + tail;
    assert digits[0] == n.whole[0];
    if |n.whole| == 1 && tail != [] { assert digits[1] == tail[0]; }
    assert NumberText(n) == MinusText(n.minus) + digits;
    hide FractionText, ExponentText, NumberText;
  }

  // --- Stray points ---

  lemma SpreadUnfold(body: Bytes, points: seq<nat>, rest: Bytes)
    requires |points| == |body| + 1
    ensures var t := Spread(body, points) + rest;
            && (points[0] > 0 ==> t == [0x2E] + (Spread(body, [points[0] - 1] + points[1..]) + rest))
            && (points[0] == 0 && body != [] ==> t == [body[0]] + (Spread(body[1..], points[1..]) + rest))
            && (points[0] == 0 && body == [] ==> t == rest)
  {
    hide *;
    SpreadIs(body, points);
    if points[0] > 0 {
      var less := [points[0] - 1] + points[1..];
      assert less[1..] == points[1..];
      SpreadIs(body, less);
      OnePoint(points[0]);
      Associates([0x2E], Points(points[0] - 1), SpreadMore(body, points));
      Associates([0x2E], Spread(body, less), rest);
      MoreSame(body, points, less);
    } else {
      NoPoints();
      NothingBefore(SpreadMore(body, points));
      if body == [] {
        NothingBefore(rest);
        MoreIs(body, points);
      } else {
        MoreIs(body, points);
        Associates([body[0]], Spread(body[1..], points[1..]), rest);
      }
    }
  }

  function SpreadMore(body: Bytes, points: seq<nat>): Bytes
    requires |points| == |body| + 1
  {
    if body == [] then [] else [body[0]] + Spread(body[1..], points[1..])
  }

  lemma MoreIs(body: Bytes, points: seq<nat>)
    requires |points| == |body| + 1
    ensures SpreadMore(body, points) == if body == [] then [] else [body[0]] + Spread(body[1..], points[1..])
  {
  }

  lemma MoreSame(body: Bytes, points: seq<nat>, less: seq<nat>)
    requires |points| == |body| + 1 == |less| && less[1..] == points[1..]
    ensures SpreadMore(body, points) == SpreadMore(body, less)
  {
    hide Spread;
  }

  lemma SpreadIs(body: Bytes, points: seq<nat>)
    requires |points| == |body| + 1
    ensures Spread(body, points) == Points(points[0]) + SpreadMore(body, points)
  {
    hide Points;
  }

  lemma OnePoint(k: nat)
    requires k > 0
    ensures Points(k) == [0x2E] + Points(k - 1)
  {
  }

  lemma NoPoints()
    ensures Points(0) == []
  {
  }

  /** The next byte after a stray point is no digit. */
  predicate Strays(body: Bytes, points: seq<nat>)
  {
    |points| == |body| + 1 && forall i :: 0 <= i < |body| && points[i] > 0 ==> !Digital(body[i])
  }

  /** Room for 94 characters: of those, all are used if anything is left over. */
  predicate Filled(k: nat, body: Bytes, points: seq<nat>, rest: Bytes)
    requires |points| == |body| + 1
  {
    k + |body| <= 94 && (rest != [] ==> k + |body| == 94 && points[|body|] == 0)
  }

  lemma StraysLess(body: Bytes, points: seq<nat>, k: nat, rest: Bytes)
    requires Strays(body, points) && Filled(k, body, points, rest)
    ensures points[0] > 0 ==> var less := [points[0] - 1] + points[1..]; Strays(body, less) && Filled(k, body, less, rest)
    ensures points[0] == 0 && body != [] ==> Strays(body[1..], points[1..]) && Filled(k + 1, body[1..], points[1..], rest)
    ensures points[0] > 0 && body == [] ==> rest == []
  {
  }

  lemma PointedRest(body: Bytes)
    requires body != [] && Pointed(body)
    ensures Pointed(body[1..]) && (body[0] == 0x2E ==> |body| > 1 && Digital(body[1]))
  {
  }

  /** What follows the first byte: a digit after a point that counts, none after a stray one. */
  lemma SpreadNext(body: Bytes, points: seq<nat>, rest: Bytes, k: nat)
    requires Strays(body, points) && Filled(k, body, points, rest) && Pointed(body)
    ensures var t := Spread(body, points) + rest;
            && (points[0] > 0 ==> |t| == 1 || !Digital(t[1]))
            && (points[0] == 0 && body != [] && body[0] == 0x2E ==> |t| > 1 && Digital(t[1]))
  {
    hide Spread, Digital, Pointed;
    SpreadUnfold(body, points, rest);
    StraysLess(body, points, k, rest);
    NoDigitPoint();
    if points[0] > 0 {
      var less := [points[0] - 1] + points[1..];
      SpreadUnfold(body, less, rest);
    } else if body != [] && body[0] == 0x2E {
      PointedRest(body);
      assert points[1] == 0 by { assert Digital(body[1]); }
      SpreadUnfold(body[1..], points[1..], rest);
    }
  }

  lemma NoDigitPoint()
    ensures !Digital(0x2E)
  {
  }

  lemma TailUnfold(t: Bytes, q: nat, k: nat)
    requires q < |t|
    ensures RepairSpec.NormTail(t, q, k) ==
            if k >= 94 then []
            else if t[q] == 0x2E && (q + 1 >= |t| || !Digital(t[q + 1])) then RepairSpec.NormTail(t, q + 1, k)
            else [t[q]] + RepairSpec.NormTail(t, q + 1, k + 1)
  {
  }

  lemma TailEnds(t: Bytes, k: nat)
    ensures RepairSpec.NormTail(t, |t|, k) == []
  {
  }

  lemma SliceOne(t: Bytes, q: nat, c: byte, s: Bytes)
    requires q <= |t| && t[q..] == [c] + s
    ensures q < |t| && t[q] == c && t[q + 1..] == s && (s != [] ==> q + 1 < |t| && t[q + 1] == s[0]) && |t| == q + 1 + |s|
  {
    assert t[q..][0] == t[q];
    assert t[q..][1..] == t[q + 1..];
    if s != [] { assert t[q..][1] == t[q + 1]; }
  }

  /** Copying drops exactly the stray points. */
  lemma {:induction false} TailDrops(t: Bytes, q: nat, k: nat, body: Bytes, points: seq<nat>, rest: Bytes)
    requires q <= |t| && |points| == |body| + 1 && Strays(body, points) && Filled(k, body, points, rest) && Pointed(body)
    requires t[q..] == Spread(body, points) + rest
    ensures RepairSpec.NormTail(t, q, k) == body
    decreases |t| - q
  {
    hide Spread, Pointed, Digital, RepairSpec.NormTail, Strays, Filled;
    SpreadUnfold(body, points, rest);
    SpreadNext(body, points, rest, k);
    StraysLess(body, points, k, rest);
    FilledIs(k, body, points, rest);
    if points[0] > 0 {
      var less := [points[0] - 1] + points[1..];
      SliceOne(t, q, 0x2E, Spread(body, less) + rest);
      NextOf(t, q, Spread(body, points) + rest);
      TailUnfold(t, q, k);
      if k < 94 {
        TailDrops(t, q + 1, k, body, less, rest);
      } else {
        assert body == [];
      }
    } else if body != [] {
      var more := Spread(body[1..], points[1..]) + rest;
      SliceOne(t, q, body[0], more);
      NextOf(t, q, Spread(body, points) + rest);
      TailUnfold(t, q, k);
      PointedRest(body);
      TailDrops(t, q + 1, k + 1, body[1..], points[1..], rest);
      assert body == [body[0]] + body[1..];
    } else if rest == [] {
      assert q == |t|;
      TailEnds(t, k);
    } else {
      assert q < |t|;
      TailUnfold(t, q, k);
    }
  }

  lemma FilledIs(k: nat, body: Bytes, points: seq<nat>, rest: Bytes)
    requires |points| == |body| + 1 && Filled(k, body, points, rest)
    ensures k + |body| <= 94 && (rest != [] ==> k + |body| == 94)
  {
  }

  lemma NextOf(t: Bytes, q: nat, s: Bytes)
    requires q <= |t| && t[q..] == s
    ensures |s| == |t| - q && (|s| > 1 ==> s[1] == t[q + 1])
  {
  }

  /** Whatever is copied is spread in the token. */
  lemma {:induction false} TailTold(t: Bytes, q: nat, k: nat) returns (points: seq<nat>, rest: Bytes)
    requires q <= |t| && k <= 94
    ensures var body := RepairSpec.NormTail(t, q, k);
            |points| == |body| + 1 && Strays(body, points) && Filled(k, body, points, rest) && t[q..] == Spread(body, points) + rest
    ensures rest != [] ==> exists j: nat :: j <= |t| && rest == t[j..]
    decreases |t| - q
  {
    hide Spread, RepairSpec.NormTail, Digital;
    if q >= |t| {
      points, rest := [0], [];
      TailEnds(t, k);
      SpreadUnfold([], points, rest);
    } else if k >= 94 {
      points, rest := [0], t[q..];
      TailUnfold(t, q, k);
      SpreadUnfold([], points, rest);
    } else if t[q] == 0x2E && (q + 1 >= |t| || !Digital(t[q + 1])) {
      var ps, r := TailTold(t, q + 1, k);
      TailUnfold(t, q, k);
      StrayTold(t, q, RepairSpec.NormTail(t, q + 1, k), ps, r, k);
      points, rest := [ps[0] + 1] + ps[1..], r;
    } else {
      var ps, r := TailTold(t, q + 1, k + 1);
      TailUnfold(t, q, k);
      ByteTold(t, q, RepairSpec.NormTail(t, q + 1, k + 1), ps, r, k);
      points, rest := [0] + ps, r;
    }
  }

  lemma StrayTold(t: Bytes, q: nat, body: Bytes, ps: seq<nat>, rest: Bytes, k: nat)
    requires q < |t| && k < 94 && t[q] == 0x2E && (q + 1 >= |t| || !Digital(t[q + 1]))
    requires Strays(body, ps) && Filled(k, body, ps, rest) && t[q + 1..] == Spread(body, ps) + rest
    ensures var points := [ps[0] + 1] + ps[1..];
            Strays(body, points) && Filled(k, body, points, rest) && t[q..] == Spread(body, points) + rest
  {
    hide Spread, Digital;
    FirstStray(t, q + 1, body, ps, rest, k);
    var points := [ps[0] + 1] + ps[1..];
    assert [points[0] - 1] + points[1..] == ps;
    SpreadUnfold(body, points, rest);
    assert t[q..] == [t[q]] + t[q + 1..];
  }

  lemma ByteTold(t: Bytes, q: nat, body: Bytes, ps: seq<nat>, rest: Bytes, k: nat)
    requires q < |t| && Strays(body, ps) && Filled(k + 1, body, ps, rest) && t[q + 1..] == Spread(body, ps) + rest
    ensures var all, points := [t[q]] + body, [0] + ps;
            Strays(all, points) && Filled(k, all, points, rest) && t[q..] == Spread(all, points) + rest
  {
    hide Spread, Digital;
    var all, points := [t[q]] + body, [0] + ps;
    assert all[1..] == body && points[1..] == ps;
    SpreadUnfold(all, points, rest);
    assert t[q..] == [t[q]] + t[q + 1..];
  }

  /** After a stray point the text does not go on with a digit. */
  lemma FirstStray(t: Bytes, q: nat, body: Bytes, points: seq<nat>, rest: Bytes, k: nat)
    requires q <= |t| && Strays(body, points) && t[q..] == Spread(body, points) + rest
    requires q < |t| ==> !Digital(t[q])
    requires Filled(k, body, points, rest) && k < 94
    ensures body != [] ==> !Digital(body[0])
    ensures body == [] ==> rest == []
  {
    hide Spread, Digital;
    SpreadUnfold(body, points, rest);
    if body != [] && points[0] == 0 { SliceOne(t, q, body[0], Spread(body[1..], points[1..]) + rest); }
  }

  // --- Cases of the repair ---

  const INFINITY_WORD: Bytes := [0x49, 0x6E, 0x66, 0x69, 0x6E, 0x69, 0x74, 0x79]

  function Past(t: Bytes): nat { if t != [] && IsSign(t[0]) then 1 else 0 }

  predicate Negative(t: Bytes) { t != [] && t[0] == 0x2D }

  lemma RepairCases(c: Core, t: Bytes)
    ensures var q, neg := Past(t), Negative(t);
            var hex, norm := RepairSpec.HexToken(t, q), RepairSpec.Normalized(t, q, neg);
            RepairSpec.RepairNumber(c, t) ==
            if t[q..] == INFINITY_WORD then Put(c, [0x6E, 0x75, 0x6C, 0x6C], [RepairSpec.Literal])
            else if hex.Some? then Put(c, MinusText(neg) + DecimalText(hex.value), [RepairSpec.NumberSyntax])
            else if IsNumberText(norm) then Put(c, norm, [RepairSpec.NumberSyntax])
            else Put(c, PrintString(t, false), [RepairSpec.Quotes])
  {
    hide RepairSpec.HexToken, RepairSpec.Normalized, ScanNumber, Put, DecimalText, PrintString;
    var q, neg := Past(t), Negative(t);
    var hex, norm := RepairSpec.HexToken(t, q), RepairSpec.Normalized(t, q, neg);
    PutFixEmit(c, RepairSpec.Literal, NULL_WORD);
    if hex.Some? { PutFixEmit(c, RepairSpec.NumberSyntax, MinusText(neg) + DecimalText(hex.value)); }
    PutFixEmit(c, RepairSpec.NumberSyntax, norm);
    PutFixEmit(c, RepairSpec.Quotes, PrintString(t, false));
  }

  lemma NotNumber(t: Bytes, i: nat)
    requires i < |t| && !NumberByte(t[i])
    ensures !IsNumberText(t)
  {
    hide IsNumberText, NumberByte, GoodNumber, NumberText;
    ExactIsNumber(t);
    if n :| GoodNumber(n) && NumberText(n) == t { NumberHasBytes(n); }
  }

  // --- Infinite tokens ---

  lemma InfiniteWritten(s: byte, c: Core)
    requires IsSign(s)
    ensures var t := NumeralText(Infinite(s));
            !IsNumberText(t) && RepairSpec.RepairNumber(c, t) == Put(c, [0x6E, 0x75, 0x6C, 0x6C], [RepairSpec.Literal])
  {
    hide IsNumberText, Put, RepairSpec.RepairNumber;
    var t := NumeralText(Infinite(s));
    assert t[1..] == INFINITY_WORD;
    RepairCases(c, t);
    NotNumber(t, 1);
  }

  // --- Tokens in base 16 ---

  lemma TableDigit(d: nat, cap: bool)
    requires d < 16
    ensures HexDigit(Digit(d, cap)) == d && !IsSign(Digit(d, cap)) && !IsMark(Digit(d, cap))
    ensures Alpha(Digit(d, cap)) == (d > 9)
  {
  }

  lemma {:induction false} DigitsMean(digits: seq<nat>, caps: seq<bool>)
    requires |caps| == |digits| && forall i :: 0 <= i < |digits| ==> digits[i] < 16
    ensures RepairSpec.AllHex(DigitsText(digits, caps))
    ensures RepairSpec.HexValue(DigitsText(digits, caps)) == Base16(digits)
    decreases |digits|
  {
    hide HexDigit, Digit;
    var t := DigitsText(digits, caps);
    forall i | 0 <= i < |t| ensures HexDigit(t[i]) == digits[i] { TableDigit(digits[i], caps[i]); }
    if digits != [] {
      var k := |digits| - 1;
      DigitsMean(digits[..k], caps[..k]);
      assert t[..k] == DigitsText(digits[..k], caps[..k]);
    }
  }

  /** The digits that a text in base 16 is spelled with. */
  lemma DigitsTold(t: Bytes) returns (digits: seq<nat>, caps: seq<bool>)
    requires RepairSpec.AllHex(t)
    ensures |caps| == |digits| && (forall i :: 0 <= i < |digits| ==> digits[i] < 16) && DigitsText(digits, caps) == t
  {
    hide Digit;
    digits, caps := [], [];
    for k := 0 to |t|
      invariant |caps| == |digits| == k && forall i :: 0 <= i < k ==> digits[i] < 16
      invariant forall i :: 0 <= i < k ==> Digit(digits[i], caps[i]) == t[i]
    {
      var cap := EscapeLaws.DigitTold(t[k]);
      digits, caps := digits + [HexDigit(t[k])], caps + [cap];
    }
  }

  /** What the conversion sees: whether there is a sign, whether there is a mark, and the digits. */
  lemma ConversionIs(u: Bytes)
    ensures var signed := u != [] && IsSign(u[0]);
            var s := if signed then u[1..] else u;
            var marked := |s| > 2 && s[0] == 0x30 && IsMark(s[1]);
            var digits := if marked then s[2..] else s;
            RepairSpec.ParseHex64(u) ==
            if digits == [] || !RepairSpec.AllHex(digits) then None
            else
              var v := RepairSpec.HexValue(digits);
              Some(if v >= 0x1_0000_0000_0000_0000 then 0xFFFF_FFFF_FFFF_FFFF
                   else if signed && u[0] == 0x2D && v > 0 then 0x1_0000_0000_0000_0000 - v else v)
  {
    hide RepairSpec.AllHex, RepairSpec.HexValue;
  }

  lemma HexUnfold(h: HexDigits)
    requires GoodHex(h)
    ensures var u, d := HexText(h), DigitsText(h.digits, h.caps);
            var signed := u != [] && IsSign(u[0]);
            var s := if signed then u[1..] else u;
            var marked := |s| > 2 && s[0] == 0x30 && IsMark(s[1]);
            && signed == h.sign.Some? && (signed ==> u[0] == h.sign.value)
            && marked == h.mark.Some? && (if marked then s[2..] else s) == d && d != []
  {
    hide Digit;
    var d := DigitsText(h.digits, h.caps);
    TableDigit(h.digits[0], h.caps[0]);
    if |d| > 1 { TableDigit(h.digits[1], h.caps[1]); }
    var m := if h.mark.Some? then [0x30, h.mark.value] else [];
    assert HexText(h) == SignText(h.sign) + (m + d);
    var s := m + d;
    assert h.sign.Some? ==> HexText(h)[1..] == s;
    assert h.mark.Some? ==> s[2..] == d;
  }

  lemma HexConverts(h: HexDigits)
    requires GoodHex(h)
    ensures RepairSpec.ParseHex64(HexText(h)) == Some(HexSays(h))
  {
    hide *;
    HexUnfold(h);
    ConversionIs(HexText(h));
    GoodHexIs(h);
    DigitsMean(h.digits, h.caps);
    HexSaysIs(h);
  }

  lemma GoodHexIs(h: HexDigits)
    requires GoodHex(h)
    ensures h.digits != [] && |h.caps| == |h.digits| && forall i :: 0 <= i < |h.digits| ==> h.digits[i] < 16
    ensures MaybeSign(h.sign)
  {
  }

  lemma HexSaysIs(h: HexDigits)
    ensures HexSays(h) == var v := Base16(h.digits);
                          if v >= 0x1_0000_0000_0000_0000 then 0xFFFF_FFFF_FFFF_FFFF
                          else if h.sign.Some? && h.sign.value == 0x2D && v > 0 then 0x1_0000_0000_0000_0000 - v else v
  {
    hide Base16;
  }

  lemma ConvertedTold(u: Bytes) returns (h: HexDigits)
    requires RepairSpec.ParseHex64(u).Some?
    ensures GoodHex(h) && HexText(h) == u
  {
    hide *;
    ConversionIs(u);
    var signed := u != [] && IsSign(u[0]);
    var s := if signed then u[1..] else u;
    var marked := |s| > 2 && s[0] == 0x30 && IsMark(s[1]);
    var d := if marked then s[2..] else s;
    var digits, caps := DigitsTold(d);
    h := HexDigits(if signed then Some(u[0]) else None, if marked then Some(s[1]) else None, digits, caps);
    SignIs(u);
    HexSpelled(h, u, s, d);
  }

  lemma SignIs(u: Bytes)
    ensures MaybeSign(if u != [] && IsSign(u[0]) then Some(u[0]) else None)
  {
  }

  lemma HexSpelled(h: HexDigits, u: Bytes, s: Bytes, d: Bytes)
    requires d != [] && |h.caps| == |h.digits| && (forall i :: 0 <= i < |h.digits| ==> h.digits[i] < 16)
    requires DigitsText(h.digits, h.caps) == d
    requires if h.sign.Some? then u != [] && u[0] == h.sign.value && s == u[1..] else s == u
    requires if h.mark.Some? then |s| > 2 && s[0] == 0x30 && s[1] == h.mark.value && d == s[2..] else d == s
    requires MaybeSign(h.sign) && (h.mark.Some? ==> IsMark(h.mark.value))
    ensures GoodHex(h) && HexText(h) == u
  {
    hide Digit;
    var m := if h.mark.Some? then [0x30, h.mark.value] else [];
    assert u == SignText(h.sign) + s && s == m + d;
    Associates(SignText(h.sign), m, d);
  }

  lemma MarkNotNumber(t: Bytes, i: nat)
    requires i < |t| && IsMark(t[i])
    ensures !IsNumberText(t)
  {
    hide IsNumberText;
    NotNumber(t, i);
  }

  /** The base-16 token: its parts, and the characters that are converted. */
  lemma HexParts(sign: Option<byte>, m: byte, u: Bytes, rest: Bytes)
    requires MaybeSign(sign) && IsMark(m) && u != [] && |u| <= 31 && (rest != [] ==> |u| == 31)
    ensures var t := SignText(sign) + [0x30, m] + u + rest; var q := |SignText(sign)|;
            && Past(t) == q && Negative(t) == (sign == Some(0x2D)) && t[q..] != INFINITY_WORD && |t| > q + 1 && t[q + 1] == m
            && RepairSpec.HexToken(t, q) == RepairSpec.ParseHex64(u)
  {
    hide RepairSpec.ParseHex64;
    var t := SignText(sign) + [0x30, m] + u + rest;
    var q := |SignText(sign)|;
    assert t == SignText(sign) + ([0x30, m] + (u + rest));
    assert t[q..] == [0x30, m] + (u + rest);
    assert t[q + 2..] == u + rest && |t| - q - 2 == |u + rest|;
    assert t[q..][0] == 0x30 && t[q..][1] == m;
    assert (u + rest)[..if |u + rest| < 31 then |u + rest| else 31] == u;
  }

  lemma HexWritten(f: Numeral, c: Core)
    requires f.Hex? && Shaped(f)
    ensures var t, n := NumeralText(f), NumeralNumber(f).value;
            !IsNumberText(t) && RepairSpec.RepairNumber(c, t) == Put(c, NumberText(n), [RepairSpec.NumberSyntax])
  {
    hide *;
    ShapedHex(f);
    var t, u := NumeralText(f), HexText(f.hex);
    HexUnfold(f.hex);
    HexParts(f.sign, f.mark, u, f.rest);
    HexConverts(f.hex);
    MarkNotNumber(t, |SignText(f.sign)| + 1);
    RepairCases(c, t);
    HexNumberText(f);
  }

  lemma ShapedHex(f: Numeral)
    requires f.Hex? && Shaped(f)
    ensures MaybeSign(f.sign) && IsMark(f.mark) && GoodHex(f.hex) && |HexText(f.hex)| <= 31 && HexText(f.hex) != []
    ensures f.rest != [] ==> |HexText(f.hex)| == 31
    ensures NumeralText(f) == SignText(f.sign) + [0x30, f.mark] + HexText(f.hex) + f.rest
    ensures RunBytes(f.rest)
  {
    hide RunBytes;
  }

  lemma HexNumberText(f: Numeral)
    requires f.Hex? && Shaped(f)
    ensures var n := NumeralNumber(f);
            n.Some? && NumberText(n.value) == MinusText(f.sign == Some(0x2D)) + DecimalText(HexSays(f.hex))
  {
    hide HexSays, DecimalText, HexText, GoodHex;
    NothingMore(MinusText(f.sign == Some(0x2D)) + DecimalText(HexSays(f.hex)));
  }

  // --- Tokens that are off ---

  lemma PointedSuffix(a: Bytes, b: Bytes)
    requires Pointed(a + b)
    ensures Pointed(b)
  {
    forall i | 0 <= i < |b| && b[i] == 0x2E ensures i + 1 < |b| && Digital(b[i + 1]) {
      assert (a + b)[|a| + i] == b[i];
      assert |a| + i + 1 < |a + b|;
      assert (a + b)[|a| + i + 1] == b[i + 1];
    }
  }

  lemma BytesSuffix(a: Bytes, b: Bytes)
    requires NumberBytes(a + b)
    ensures NumberBytes(b)
  {
    hide NumberByte;
    forall i | 0 <= i < |b| ensures NumberByte(b[i]) { assert (a + b)[|a| + i] == b[i]; }
  }

  /** What is inserted before the body. */
  function OffHead(f: Numeral): Bytes
    requires f.Off?
  {
    MinusText(f.sign == Some(0x2D)) + (if f.lead then [0x30] else [])
  }

  function OffTail(f: Numeral): Bytes
    requires f.Off? && |f.points| == |f.body| + 1
  {
    Spread(f.body, f.points) + f.rest
  }

  lemma OffIs(f: Numeral)
    requires f.Off? && Shaped(f)
    ensures MaybeSign(f.sign) && |f.points| == |f.body| + 1 && GoodNumber(f.n) && NumberText(f.n) == OffHead(f) + f.body
    ensures Strays(f.body, f.points) && Filled(|OffHead(f)|, f.body, f.points, f.rest) && RunBytes(f.rest)
    ensures Pointed(f.body) && NumberBytes(f.body)
    ensures var x := OffTail(f);
            && x != [] && (f.lead <==> x[0] == 0x2E) && (f.zeros > 0 ==> Digital(x[0])) && (f.sign.None? ==> !IsSign(x[0]))
            && NumeralText(f) == SignText(f.sign) + Zeros(f.zeros) + Spread(f.body, f.points) + f.rest
  {
    hide Pointed, NumberBytes, NumberText, GoodNumber, Spread, RunBytes;
    NumberPointed(f.n);
    NumberHasBytes(f.n);
    PointedSuffix(OffHead(f), f.body);
    BytesSuffix(OffHead(f), f.body);
  }

  /** The first two bytes after the sign and the zeros. */
  lemma OffFront(f: Numeral)
    requires f.Off? && Shaped(f)
    ensures var x := OffTail(f);
            && x != [] && NumberByte(x[0]) && (x[0] == 0x30 ==> |x| == 1 || (NumberByte(x[1]) && !Digital(x[1])))
  {
    hide *;
    OffIs(f);
    OffParts(f);
    SpreadUnfold(f.body, f.points, f.rest);
    PointIs();
    if !f.lead {
      BareFront(f);
      var more := Spread(f.body[1..], f.points[1..]) + f.rest;
      SpreadUnfold(f.body[1..], f.points[1..], f.rest);
      BodyByte(f, 0);
      if |f.body| > 1 { BodyByte(f, 1); }
      Prepended(f.body[0], more);
    }
  }

  lemma PointIs()
    ensures NumberByte(0x2E) && !Digital(0x2E)
  {
  }

  lemma Prepended(b: byte, s: Bytes)
    ensures ([b] + s)[0] == b && (s == [] ==> |[b] + s| == 1) && (s != [] ==> ([b] + s)[1] == s[0])
  {
  }

  lemma BodyByte(f: Numeral, i: nat)
    requires f.Off? && NumberBytes(f.body) && i < |f.body|
    ensures NumberByte(f.body[i])
  {
    hide NumberByte;
  }

  /** Without a point at its front, the text begins with the number, and nothing is left over after a single digit. */
  lemma BareFront(f: Numeral)
    requires f.Off? && Shaped(f) && !f.lead && |f.points| == |f.body| + 1
    ensures f.points[0] == 0 && f.body != []
    ensures f.body[0] == 0x30 && |f.body| > 1 ==> !Digital(f.body[1])
    ensures |f.body| == 1 && f.points[1] == 0 ==> f.rest == []
  {
    OffIs(f);
    NumberFront(f.n);
    NothingMore(MinusText(f.sign == Some(0x2D)));
    hide NumberText, GoodNumber, Spread, Pointed, NumberBytes, RunBytes, Shaped, NumberByte;
    SpreadUnfold(f.body, f.points, f.rest);
    if f.body != [] && f.points[0] == 0 && f.sign == Some(0x2D) {
      assert NumberText(f.n)[1] == f.body[0];
      if |f.body| > 1 { assert NumberText(f.n)[2] == f.body[1]; }
    }
  }

  lemma {:induction false} SkipsZeros(t: Bytes, q: nat, k: nat, x: Bytes)
    requires q <= |t| && t[q..] == Zeros(k) + x && x != [] && (k > 0 ==> Digital(x[0]))
    requires x[0] == 0x30 ==> |x| == 1 || !Digital(x[1])
    ensures RepairSpec.SkipZeros(t, q) == q + k && q + k < |t| && t[q + k..] == x && t[q + k] == x[0]
    decreases k
  {
    if k == 0 {
      assert Zeros(0) + x == x;
      assert t[q..][0] == t[q] && (|x| > 1 ==> t[q..][1] == t[q + 1]);
    } else {
      assert Zeros(k) + x == [0x30] + (Zeros(k - 1) + x);
      SliceOne(t, q, 0x30, Zeros(k - 1) + x);
      SkipsZeros(t, q + 1, k - 1, x);
      assert Digital(t[q + 1]) by { if k > 1 { assert Zeros(k - 1)[0] == 0x30; } else { assert Zeros(0) + x == x; } }
    }
  }

  lemma OffSigned(f: Numeral)
    requires f.Off? && Shaped(f)
    ensures var t := NumeralText(f); var q := |SignText(f.sign)|;
            && t == SignText(f.sign) + (Zeros(f.zeros) + OffTail(f)) && t[q..] == Zeros(f.zeros) + OffTail(f)
            && Past(t) == q && Negative(t) == (f.sign == Some(0x2D))
  {
    OffIs(f);
    hide NumberText, GoodNumber, Spread, Pointed, NumberBytes, NumberByte, Strays, Filled, RunBytes, Shaped, NumeralText;
    var z, x := Zeros(f.zeros), OffTail(f);
    OffJoins(SignText(f.sign), z, Spread(f.body, f.points), f.rest);
    assert (SignText(f.sign) + (z + x))[|SignText(f.sign)|..] == z + x;
    assert (z + x)[0] == if f.zeros > 0 then 0x30 else x[0];
  }

  lemma OffJoins(a: Bytes, b: Bytes, c: Bytes, d: Bytes)
    ensures a + b + c + d == a + (b + (c + d))
  {
  }

  lemma FrontIsNeither(t: Bytes, q: nat)
    requires q < |t| && NumberByte(t[q]) && (t[q] == 0x30 ==> q + 1 == |t| || NumberByte(t[q + 1]))
    ensures t[q..] != INFINITY_WORD && RepairSpec.HexToken(t, q).None?
  {
    hide RepairSpec.ParseHex64;
    assert t[q..][0] == t[q];
    assert q + 1 < |t| ==> t[q..][1] == t[q + 1];
  }

  lemma ZerosFront(k: nat, x: Bytes)
    requires x != []
    ensures var s := Zeros(k) + x;
            && s[0] == (if k > 0 then 0x30 else x[0])
            && (|s| > 1 ==> s[1] == if k > 1 then 0x30 else if k == 1 then x[0] else x[1])
  {
  }

  /** Such a token is neither infinite nor in base 16. */
  lemma OffIsNeither(f: Numeral)
    requires f.Off? && Shaped(f)
    ensures var t := NumeralText(f); var q := |SignText(f.sign)|;
            q <= |t| && t[q..] != INFINITY_WORD && RepairSpec.HexToken(t, q).None?
  {
    hide *;
    OffSigned(f);
    OffFront(f);
    OffIs(f);
    var t, q, x := NumeralText(f), |SignText(f.sign)|, OffTail(f);
    ZerosFront(f.zeros, x);
    NextOf(t, q, Zeros(f.zeros) + x);
    FirstOf(t, q, Zeros(f.zeros) + x);
    DigitIs();
    FrontIsNeither(t, q);
  }

  lemma FirstOf(t: Bytes, q: nat, s: Bytes)
    requires q <= |t| && t[q..] == s && s != []
    ensures q < |t| && t[q] == s[0]
  {
  }

  lemma DigitIs()
    ensures NumberByte(0x30) && forall c: byte :: Digital(c) ==> NumberByte(c)
  {
  }

  lemma NormalizedIs(t: Bytes, q: nat, neg: bool)
    requires q <= |t|
    ensures var z := RepairSpec.SkipZeros(t, q);
            var head := MinusText(neg) + (if z < |t| && t[z] == 0x2E then [0x30] else []);
            RepairSpec.Normalized(t, q, neg) == head + RepairSpec.NormTail(t, z, |head|)
  {
    hide RepairSpec.SkipZeros, RepairSpec.NormTail;
  }

  lemma OffNormalized(f: Numeral)
    requires f.Off? && Shaped(f)
    ensures RepairSpec.Normalized(NumeralText(f), |SignText(f.sign)|, f.sign == Some(0x2D)) == NumberText(f.n)
  {
    hide *;
    OffIs(f);
    OffSigned(f);
    OffFront(f);
    var t := NumeralText(f);
    var q := |SignText(f.sign)|;
    var neg := f.sign == Some(0x2D);
    SkipsZeros(t, q, f.zeros, OffTail(f));
    OffParts(f);
    TailDrops(t, q + f.zeros, |OffHead(f)|, f.body, f.points, f.rest);
    NormalizedFrom(t, q, neg, q + f.zeros, OffHead(f), f.body);
  }

  lemma NormalizedFrom(t: Bytes, q: nat, neg: bool, z: nat, head: Bytes, body: Bytes)
    requires q <= |t| && z == RepairSpec.SkipZeros(t, q) && body == RepairSpec.NormTail(t, z, |head|)
    requires head == MinusText(neg) + (if z < |t| && t[z] == 0x2E then [0x30] else [])
    ensures RepairSpec.Normalized(t, q, neg) == head + body
  {
    hide *;
    NormalizedIs(t, q, neg);
  }

  lemma OffParts(f: Numeral)
    requires f.Off? && |f.points| == |f.body| + 1
    ensures OffHead(f) == MinusText(f.sign == Some(0x2D)) + (if f.lead then [0x30] else [])
    ensures OffTail(f) == Spread(f.body, f.points) + f.rest
  {
  }

  lemma OffWritten(f: Numeral, c: Core)
    requires f.Off? && GoodNumeral(f)
    ensures var t := NumeralText(f);
            !IsNumberText(t) && RepairSpec.RepairNumber(c, t) == Put(c, NumberText(f.n), [RepairSpec.NumberSyntax])
  {
    hide *;
    GoodNumeralIs(f);
    var t := NumeralText(f);
    OffIs(f);
    OffSigned(f);
    OffIsNeither(f);
    OffNormalized(f);
    ExactIsNumber(t);
    ExactIsNumber(NumberText(f.n));
    ExactItself(f.n);
    RepairCases(c, t);
  }

  lemma GoodNumeralIs(f: Numeral)
    requires GoodNumeral(f)
    ensures Shaped(f) && (f.Off? ==> !IsExact(NumeralText(f)))
  {
    hide IsExact;
  }

  lemma ExactItself(n: NumberToken)
    requires GoodNumber(n)
    ensures IsExact(NumberText(n))
  {
  }

  // --- All other tokens ---

  predicate NumberStart(c: byte) { IsSign(c) || c == 0x2E || Digital(c) }

  lemma RunSlice(t: Bytes, j: nat)
    requires RunBytes(t) && j <= |t|
    ensures RunBytes(t[j..])
  {
    hide RunByte;
  }

  /** If the conversion accepts it, the token is one in base 16. */
  lemma HexTold(t: Bytes) returns (f: Numeral)
    requires t != [] && RunBytes(t) && RepairSpec.HexToken(t, Past(t)).Some?
    ensures f.Hex? && Shaped(f) && NumeralText(f) == t
  {
    hide RepairSpec.ParseHex64, RunBytes, HexText, GoodHex;
    var q := Past(t);
    var s := t[q + 2..];
    var e := if |s| < 31 then |s| else 31;
    var h := ConvertedTold(s[..e]);
    RunSlice(t, q + 2 + e);
    var sign := if q == 1 then Some(t[0]) else None;
    f := Hex(sign, t[q + 1], h, t[q + 2 + e..]);
    assert t == t[..q] + [t[q], t[q + 1]] + s;
    assert s == s[..e] + s[e..] && s[e..] == t[q + 2 + e..];
    assert t[..q] == SignText(sign) && t[q] == 0x30;
    Associates(SignText(sign) + [0x30, t[q + 1]], s[..e], s[e..]);
  }

  lemma {:induction false} ZerosTold(t: Bytes, q: nat)
    requires q <= |t|
    ensures var z := RepairSpec.SkipZeros(t, q);
            && t[q..] == Zeros(z - q) + t[z..] && (z > q ==> z < |t| && Digital(t[z]))
    decreases |t| - q
  {
    hide *;
    var z := RepairSpec.SkipZeros(t, q);
    ZerosSkip(t, q);
    if z > q {
      ZerosTold(t, q + 1);
      ZerosUnfold(z - q, t[z..]);
      FrontSplits(t, q);
    } else {
      ZerosUnfold(0, t[q..]);
    }
  }

  lemma FrontSplits(t: Bytes, q: nat)
    requires q < |t|
    ensures t[q..] == [t[q]] + t[q + 1..]
  {
  }

  lemma ZerosSkip(t: Bytes, q: nat)
    requires q <= |t|
    ensures var z := RepairSpec.SkipZeros(t, q);
            z > q ==> && z == RepairSpec.SkipZeros(t, q + 1) && q + 1 < |t| && t[q] == 0x30 && Digital(t[q + 1])
  {
  }

  lemma ZerosUnfold(k: nat, x: Bytes)
    ensures k == 0 ==> Zeros(k) + x == x
    ensures k > 0 ==> Zeros(k) + x == [0x30] + (Zeros(k - 1) + x)
  {
  }

  /** If the normalized text is a number, the token is one that is off, or a number as it is. */
  lemma OffTold(t: Bytes) returns (f: Numeral)
    requires t != [] && RunBytes(t) && NumberStart(t[0]) && IsNumberText(RepairSpec.Normalized(t, Past(t), Negative(t)))
    ensures f.Off? && Shaped(f) && NumeralText(f) == t
  {
    hide *;
    var q, neg := Past(t), Negative(t);
    PastIs(t);
    ZerosTold(t, q);
    NormalizedIs(t, q, neg);
    var z := RepairSpec.SkipZeros(t, q);
    var lead := z < |t| && t[z] == 0x2E;
    var head := MinusText(neg) + (if lead then [0x30] else []);
    HeadFits(neg, lead);
    var body := RepairSpec.NormTail(t, z, |head|);
    var n := NumberOf(head + body);
    var points, rest := TailTold(t, z, |head|);
    TailRuns(t, rest);
    var sign := if q == 1 then Some(t[0]) else None;
    f := Off(sign, z - q, lead, body, points, rest, n);
    NotAllDropped(t, z, head, body, n, neg, lead);
    OffShaped(f, t, q, z, head);
  }

  lemma PastIs(t: Bytes)
    requires t != []
    ensures Past(t) <= |t| && (Past(t) == 1 <==> IsSign(t[0])) && Past(t) <= 1 && (Negative(t) <==> t[0] == 0x2D)
    ensures IsSign(0x2D)
  {
  }

  lemma HeadFits(neg: bool, lead: bool)
    ensures |MinusText(neg) + (if lead then [0x30] else [])| <= 2
  {
  }

  lemma NumberOf(t: Bytes) returns (n: NumberToken)
    requires IsNumberText(t)
    ensures GoodNumber(n) && NumberText(n) == t
  {
    hide IsNumberText, GoodNumber, NumberText;
    ExactIsNumber(t);
    n :| GoodNumber(n) && NumberText(n) == t;
  }

  lemma TailRuns(t: Bytes, rest: Bytes)
    requires RunBytes(t) && (rest != [] ==> exists j: nat :: j <= |t| && rest == t[j..])
    ensures RunBytes(rest)
  {
    hide RunBytes;
    if rest != [] {
      var j: nat :| j <= |t| && rest == t[j..];
      RunSlice(t, j);
    } else {
      assert RunBytes([]) by { NothingRuns(); }
    }
  }

  lemma NothingRuns()
    ensures RunBytes([])
  {
  }

  lemma NotAllDropped(t: Bytes, z: nat, head: Bytes, body: Bytes, n: NumberToken, neg: bool, lead: bool)
    requires GoodNumber(n) && NumberText(n) == head + body && head == MinusText(neg) + (if lead then [0x30] else [])
    requires z <= |t| && body == RepairSpec.NormTail(t, z, |head|) && (lead ==> z < |t|)
    ensures z < |t|
  {
    if z == |t| {
      TailEnds(t, |head|);
      NumberFront(n);
      hide NumberText, GoodNumber;
      NothingMore(MinusText(neg));
    }
  }

  lemma OffShaped(f: Numeral, t: Bytes, q: nat, z: nat, head: Bytes)
    requires f.Off? && RunBytes(f.rest) && GoodNumber(f.n) && NumberText(f.n) == head + f.body
    requires t != [] && q == Past(t) && z < |t| && q <= z && f.zeros == z - q && (z > q ==> Digital(t[z]))
    requires t[q..] == Zeros(z - q) + t[z..] && f.lead == (t[z] == 0x2E)
    requires f.sign == (if q == 1 then Some(t[0]) else None)
    requires head == MinusText(Negative(t)) + (if f.lead then [0x30] else [])
    requires |f.points| == |f.body| + 1 && Strays(f.body, f.points) && Filled(|head|, f.body, f.points, f.rest)
    requires t[z..] == Spread(f.body, f.points) + f.rest
    ensures Shaped(f) && NumeralText(f) == t
  {
    hide *;
    var x := Spread(f.body, f.points) + f.rest;
    PastIs(t);
    FirstOf(t, z, x);
    OffSign(f, t);
    OffJoins(SignText(f.sign), Zeros(f.zeros), Spread(f.body, f.points), f.rest);
    if z == q { ZerosUnfold(0, t[z..]); }
    OffGood(f, head);
  }

  lemma OffSign(f: Numeral, t: Bytes)
    requires f.Off? && t != [] && f.sign == (if Past(t) == 1 then Some(t[0]) else None)
    ensures t == SignText(f.sign) + t[Past(t)..] && Negative(t) == (f.sign == Some(0x2D)) && MaybeSign(f.sign)
    ensures f.sign.None? ==> !IsSign(t[0]) && Past(t) == 0
  {
  }

  lemma OffGood(f: Numeral, head: Bytes)
    requires f.Off? && RunBytes(f.rest) && GoodNumber(f.n) && NumberText(f.n) == head + f.body && MaybeSign(f.sign)
    requires head == MinusText(f.sign == Some(0x2D)) + (if f.lead then [0x30] else [])
    requires Strays(f.body, f.points) && Filled(|head|, f.body, f.points, f.rest)
    requires var x := Spread(f.body, f.points) + f.rest;
             && x != [] && (f.lead <==> x[0] == 0x2E) && (f.zeros > 0 ==> Digital(x[0])) && (f.sign.None? && f.zeros == 0 ==> !IsSign(x[0]))
    ensures Shaped(f)
    ensures NumeralText(f) == SignText(f.sign) + Zeros(f.zeros) + Spread(f.body, f.points) + f.rest
  {
    hide RunBytes, GoodNumber, NumberText, Spread, Zeros, RunByte, SignText;
  }

  /** A token with no reading as a number stays text. */
  lemma OtherWritten(t: Bytes, c: Core)
    requires GoodOther(t)
    ensures !IsNumberText(t) && RepairSpec.RepairNumber(c, t) == Put(c, PrintString(t, false), [RepairSpec.Quotes])
  {
    OtherIs(t);
    hide *;
    var q, neg := Past(t), Negative(t);
    PastIs(t);
    RepairCases(c, t);
    if IsNumberText(t) {
      var n := NumberOf(t);
      ExactShaped(n);
      NoNumeral(t, Exact(n));
    }
    if t[q..] == INFINITY_WORD {
      InfiniteTold(t);
      NoNumeral(t, Infinite(t[0]));
    }
    if RepairSpec.HexToken(t, q).Some? {
      var f := HexTold(t);
      NoNumeral(t, f);
    }
    if IsNumberText(RepairSpec.Normalized(t, q, neg)) {
      var f := OffTold(t);
      NoNumeral(t, f);
    }
  }

  lemma OtherIs(t: Bytes)
    requires GoodOther(t)
    ensures t != [] && RunBytes(t) && NumberStart(t[0])
  {
    hide Shaped, NumeralText, RunBytes;
  }

  lemma NoNumeral(t: Bytes, f: Numeral)
    requires GoodOther(t) && Shaped(f)
    ensures NumeralText(f) != t
  {
    hide Shaped, NumeralText, RunBytes;
  }

  lemma ExactShaped(n: NumberToken)
    requires GoodNumber(n)
    ensures Shaped(Exact(n)) && NumeralText(Exact(n)) == NumberText(n)
  {
  }

  lemma InfiniteTold(t: Bytes)
    requires t != [] && NumberStart(t[0]) && t[Past(t)..] == INFINITY_WORD
    ensures Shaped(Infinite(t[0])) && NumeralText(Infinite(t[0])) == t
  {
    assert t[0..] == t && t == [t[0]] + t[1..];
  }
}

/** The common ways in which a number is off, and what it denotes nevertheless. */
module NumeralFamilies {
  import opened Bytes
  import opened Texts
  import opened Options
  import opened JsonValue
  import opened Scan
  import opened Decimal
  import opened Grammar
  import opened LooseText
  import opened NumberLaws
  import opened RepairedNumbers

  function NoneOf(k: nat): (p: seq<nat>)
    ensures |p| == k && forall i :: 0 <= i < k ==> p[i] == 0
  {
    seq(k, _ => 0)
  }

  /** With no stray point but perhaps one at the end, the text is the body. */
  lemma {:induction false} SpreadPlain(body: Bytes, last: nat)
    requires last <= 1
    ensures Spread(body, NoneOf(|body|) + [last]) == if last == 1 then body + [0x2E] else body
    decreases |body|
  {
    var p := NoneOf(|body|) + [last];
    SpreadIs(body, p);
    MoreIs(body, p);
    NoPoints();
    if body == [] {
      if last == 1 { OnePoint(1); }
    } else {
      assert p[1..] == NoneOf(|body| - 1) + [last];
      SpreadPlain(body[1..], last);
      NothingBefore(SpreadMore(body, p));
    }
  }

  /** The numeral of a number with a sign, zeros, a digit left out or a last point that should not be there. */
  function Plainly(sign: Option<byte>, zeros: nat, lead: bool, body: Bytes, last: nat, n: NumberToken): Numeral
  {
    Off(sign, zeros, lead, body, NoneOf(|body|) + [last], [], n)
  }

  lemma PlainlyIs(sign: Option<byte>, zeros: nat, lead: bool, body: Bytes, last: nat, n: NumberToken)
    requires MaybeSign(sign) && GoodNumber(n) && |NumberText(n)| <= 94 && last <= 1 && body != []
    requires NumberText(n) == MinusText(sign == Some(0x2D)) + (if lead then [0x30] else []) + body
    requires (lead <==> body[0] == 0x2E) && (zeros > 0 ==> Digital(body[0])) && (sign.None? ==> !IsSign(body[0]))
    ensures var f := Plainly(sign, zeros, lead, body, last, n);
            && Shaped(f) && NumeralNumber(f) == Some(n)
            && NumeralText(f) == SignText(sign) + Zeros(zeros) + body + (if last == 1 then [0x2E] else [])
  {
    SpreadPlain(body, last);
    var p := NoneOf(|body|) + [last];
    var x := Spread(body, p);
    NothingMore(x);
    OffGood(Plainly(sign, zeros, lead, body, last, n), MinusText(sign == Some(0x2D)) + (if lead then [0x30] else []));
    hide GoodNumber, NumberText, Spread, Zeros, SignText, Shaped;
    NothingMore(SignText(sign) + Zeros(zeros) + x);
    Associates(SignText(sign) + Zeros(zeros), body, [0x2E]);
    NothingMore(SignText(sign) + Zeros(zeros) + body);
  }

  lemma NotExact(t: Bytes)
    requires t != []
    requires || t[0] == 0x2B || t[0] == 0x2E || t[|t| - 1] == 0x2E
             || (t[0] == 0x30 && |t| > 1 && Digital(t[1]))
             || (t[0] == 0x2D && |t| > 1 && t[1] == 0x30 && |t| > 2 && Digital(t[2]))
    ensures !IsExact(t)
  {
    hide GoodNumber, NumberText;
    if m :| GoodNumber(m) && NumberText(m) == t {
      NumberFront(m);
      NumberPointed(m);
    }
  }

  /** A plus sign before a number changes nothing: +1 is 1. */
  lemma PlusSign(n: NumberToken)
    requires GoodNumber(n) && |NumberText(n)| <= 94
    ensures exists f :: GoodNumeral(f) && NumeralText(f) == [0x2B] + NumberText(n) && NumeralNumber(f) == Some(n)
  {
    var t := [0x2B] + NumberText(n);
    NumberFront(n);
    NotExact(t);
    hide GoodNumber, NumberText, Shaped, NumeralText, NumeralNumber, IsExact;
    var body := NumberText(n);
    NothingBefore(body);
    PlainlyIs(Some(0x2B), 0, false, body, 0, n);
    ZerosUnfold(0, body);
    NoZeros();
    NothingMore([0x2B]);
    NothingMore(t);
    assert GoodNumeral(Plainly(Some(0x2B), 0, false, body, 0, n));
  }

  lemma NoZeros()
    ensures Zeros(0) == [] && SignText(None) == [] && SignText(Some(0x2B)) == [0x2B] && MinusText(false) == []
  {
  }

  /** Zeros before a number change nothing: 007 is 7. */
  lemma LeadingZeros(n: NumberToken, k: nat)
    requires GoodNumber(n) && !n.minus && k > 0 && |NumberText(n)| <= 94
    ensures exists f :: GoodNumeral(f) && NumeralText(f) == Zeros(k) + NumberText(n) && NumeralNumber(f) == Some(n)
  {
    var t := Zeros(k) + NumberText(n);
    NumberFront(n);
    NotExact(t);
    hide GoodNumber, NumberText, Shaped, NumeralText, NumeralNumber, IsExact;
    var body := NumberText(n);
    NothingBefore(body);
    PlainlyIs(None, k, false, body, 0, n);
    NoZeros();
    NothingBefore(Zeros(k));
    NothingMore(t);
    assert GoodNumeral(Plainly(None, k, false, body, 0, n));
  }

  /** A zero before the point may be left out: .5 is 0.5. */
  lemma NoFirstDigit(n: NumberToken)
    requires GoodNumber(n) && !n.minus && n.whole == [0x30] && n.fraction.Some? && |NumberText(n)| <= 94
    ensures exists f :: GoodNumeral(f) && [0x30] + NumeralText(f) == NumberText(n) && NumeralNumber(f) == Some(n)
  {
    NumberParts(n);
    FractionBegins(n);
    hide GoodNumber, NumberText, Shaped, NumeralText, NumeralNumber, IsExact, FractionText, ExponentText;
    var body := FractionText(n.fraction) + ExponentText(n.exponent);
    NoZeros();
    Associates([0x30], FractionText(n.fraction), ExponentText(n.exponent));
    NotExact(body);
    PlainlyIs(None, 0, true, body, 0, n);
    NothingBefore(body);
    NothingMore(body);
    assert GoodNumeral(Plainly(None, 0, true, body, 0, n));
  }

  lemma FractionBegins(n: NumberToken)
    requires n.fraction.Some?
    ensures var t := FractionText(n.fraction) + ExponentText(n.exponent); t != [] && t[0] == 0x2E
  {
  }

  /** A point at the end changes nothing: 5. is 5. */
  lemma LastPoint(n: NumberToken)
    requires GoodNumber(n) && !n.minus && |NumberText(n)| <= 94
    ensures exists f :: GoodNumeral(f) && NumeralText(f) == NumberText(n) + [0x2E] && NumeralNumber(f) == Some(n)
  {
    var t := NumberText(n) + [0x2E];
    NumberFront(n);
    NotExact(t);
    hide GoodNumber, NumberText, Shaped, NumeralText, NumeralNumber, IsExact;
    var body := NumberText(n);
    NothingBefore(body);
    PlainlyIs(None, 0, false, body, 1, n);
    NoZeros();
    assert GoodNumeral(Plainly(None, 0, false, body, 1, n));
  }

  /** Up to 31 digits after 0x or 0X denote their value in base 16, as a decimal number: 0xFF is 255. */
  lemma HexToken(mark: byte, digits: seq<nat>, caps: seq<bool>)
    requires IsMark(mark) && digits != [] && |digits| <= 31 && |caps| == |digits|
    requires (forall i :: 0 <= i < |digits| ==> digits[i] < 16) && Base16(digits) <= 9007199254740992
    ensures exists f :: GoodNumeral(f) && NumeralText(f) == [0x30, mark] + DigitsText(digits, caps)
                        && NumeralSays(f) == Num(Int(Base16(digits)))
  {
    hide Base16, DigitsText, IsExact;
    var h := HexDigits(None, None, digits, caps);
    var f := Hex(None, mark, h, []);
    NoZeros();
    var d := DigitsText(digits, caps);
    assert HexText(h) == d by { NothingBefore(d); NothingBefore([] + d); }
    NothingBefore([0x30, mark]);
    NothingMore([0x30, mark] + d);
    assert GoodNumeral(f);
    DecimalMeans(Base16(digits));
  }

  lemma DecimalMeans(v: nat)
    requires v <= 9007199254740992
    ensures var n := NumberToken(false, DecimalText(v), None, None); GoodNumber(n) && NumberMeans(n) == Int(v)
  {
    var t := DecimalText(v);
    DecimalValue(v);
    NumberLaws.DigitsMean(t);
    hide DecimalText, Grammar.Decimal, DigitsValue;
  }
}
