/** How the number grammar depends on what surrounds the token. */
module NumberScan {
  import opened Bytes
  import opened Options
  import opened Scan
  import opened Decimal

  lemma {:induction false} SkipDigitsWithin(inp: Bytes, i: nat, e: nat)
    requires i <= e <= |inp| && (e < |inp| ==> !IsDigit(inp[e]))
    ensures SkipDigits(inp, i, |inp|) == SkipDigits(inp, i, e)
    decreases e - i
  {
    if i < e && IsDigit(inp[i]) {
      SkipDigitsWithin(inp, i + 1, e);
    }
  }

  lemma {:induction false} SkipDigitsShifted(inp: Bytes, s: nat, i: nat, e: nat)
    requires s <= i <= e <= |inp|
    ensures SkipDigits(inp, i, e) == s + SkipDigits(inp[s..e], i - s, e - s)
    decreases e - i
  {
    if i < e && IsDigit(inp[i]) {
      SkipDigitsShifted(inp, s, i + 1, e);
    }
  }

  /** A character that no number contains ends the number as the end of the input does. */
  lemma ScanNumberWithin(inp: Bytes, s: nat, e: nat)
    requires s <= e <= |inp| && (e < |inp| ==> !IsNumberChar(inp[e]))
    ensures ScanNumber(inp, s, |inp|) == ScanNumber(inp, s, e)
  {
    IntegerWithin(inp, s, e);
    var a := ScanInteger(inp, s, e);
    if a.Some? {
      FractionWithin(inp, a.value, e);
      var b := ScanFraction(inp, a.value, e);
      if b.Some? {
        ExponentWithin(inp, b.value, e);
      }
    }
  }

  lemma IntegerWithin(inp: Bytes, s: nat, e: nat)
    requires s <= e <= |inp| && (e < |inp| ==> !IsNumberChar(inp[e]))
    ensures ScanInteger(inp, s, |inp|) == ScanInteger(inp, s, e)
  {
    var q := if s < e && inp[s] == MINUS then s + 1 else s;
    if q < e { SkipDigitsWithin(inp, q, e); }
  }

  lemma FractionWithin(inp: Bytes, q: nat, e: nat)
    requires q <= e <= |inp| && (e < |inp| ==> !IsNumberChar(inp[e]))
    ensures ScanFraction(inp, q, |inp|) == ScanFraction(inp, q, e)
  {
    if q < e { SkipDigitsWithin(inp, q + 1, e); }
  }

  lemma ExponentWithin(inp: Bytes, q: nat, e: nat)
    requires q <= e <= |inp| && (e < |inp| ==> !IsNumberChar(inp[e]))
    ensures ScanExponent(inp, q, |inp|) == ScanExponent(inp, q, e)
  {
    if q + 1 <= e { SkipDigitsWithin(inp, q + 1, e); }
    if q + 2 <= e { SkipDigitsWithin(inp, q + 2, e); }
  }

  function Shift(r: Option<nat>, s: nat): Option<nat> { if r.None? then None else Some(r.value + s) }

  lemma ScanNumberShifted(inp: Bytes, s: nat, e: nat)
    requires s <= e <= |inp|
    ensures ScanNumber(inp, s, e) == Shift(ScanNumber(inp[s..e], 0, e - s), s)
  {
    var t := inp[s..e];
    IntegerShifted(inp, s, e);
    var a := ScanInteger(inp, s, e);
    if a.Some? {
      FractionShifted(inp, s, a.value, e);
      var b := ScanFraction(inp, a.value, e);
      if b.Some? {
        ExponentShifted(inp, s, b.value, e);
      }
    }
  }

  lemma IntegerShifted(inp: Bytes, s: nat, e: nat)
    requires s <= e <= |inp|
    ensures ScanInteger(inp, s, e) == Shift(ScanInteger(inp[s..e], 0, e - s), s)
  {
    var q := if s < e && inp[s] == MINUS then s + 1 else s;
    SkipDigitsShifted(inp, s, q, e);
  }

  lemma FractionShifted(inp: Bytes, s: nat, q: nat, e: nat)
    requires s <= q <= e <= |inp|
    ensures ScanFraction(inp, q, e) == Shift(ScanFraction(inp[s..e], q - s, e - s), s)
  {
    if q < e { SkipDigitsShifted(inp, s, q + 1, e); }
  }

  lemma ExponentShifted(inp: Bytes, s: nat, q: nat, e: nat)
    requires s <= q <= e <= |inp|
    ensures ScanExponent(inp, q, e) == Shift(ScanExponent(inp[s..e], q - s, e - s), s)
  {
    if q + 1 <= e { SkipDigitsShifted(inp, s, q + 1, e); }
    if q + 2 <= e { SkipDigitsShifted(inp, s, q + 2, e); }
  }

  lemma {:induction false} SkipAllDigits(t: Bytes, i: nat)
    requires i <= |t| && forall k :: i <= k < |t| ==> IsDigit(t[k])
    ensures SkipDigits(t, i, |t|) == |t|
    decreases |t| - i
  {
    if i < |t| { SkipAllDigits(t, i + 1); }
  }

  /** Decimal digits after an optional minus sign are a JSON number. */
  lemma SignedScans(neg: bool, n: nat)
    ensures IsNumberText((if neg then [MINUS] else []) + DecimalText(n))
  {
    var t := (if neg then [MINUS] else []) + DecimalText(n);
    var q := if neg then 1 else 0;
    assert t[q..] == DecimalText(n);
    assert forall k :: q <= k < |t| ==> t[k] == t[q..][k - q];
    SkipAllDigits(t, q);
    assert ScanInteger(t, 0, |t|) == Some(|t|);
  }
}
