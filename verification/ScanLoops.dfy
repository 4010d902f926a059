/** The scanners as the loops they are: block by block where that is fast, then byte by byte. */
module ScanLoops {
  import opened Bytes
  import opened Options
  import opened Scan
  import opened Utf8

  predicate IsSpecial(c: byte) { c == QUOTE || c == BACKSLASH || c < 0x20 }

  /** The first quote, backslash or control character of [i, end of input), or the end. */
  function SpecialAt(inp: Bytes, i: nat): (j: nat)
    requires i <= |inp|
    ensures i <= j <= |inp|
    ensures forall k :: i <= k < j ==> !IsSpecial(inp[k])
    ensures j < |inp| ==> IsSpecial(inp[j])
    decreases |inp| - i
  {
    if i < |inp| && !IsSpecial(inp[i]) then SpecialAt(inp, i + 1) else i
  }

  /** What a block comparison and a bit scan yield: the first index from i, before end, that is not whitespace. */
  function FirstNonWs(inp: Bytes, i: nat, end: nat): (j: nat)
    requires i <= end <= |inp|
    ensures i <= j <= end
    ensures forall k :: i <= k < j ==> IsWs(inp[k])
    ensures j < end ==> !IsWs(inp[j])
    decreases end - i
  {
    if i < end && IsWs(inp[i]) then FirstNonWs(inp, i + 1, end) else i
  }

  /** Likewise for a special character. */
  function FirstSpecial(inp: Bytes, i: nat, end: nat): (j: nat)
    requires i <= end <= |inp|
    ensures i <= j <= end
    ensures forall k :: i <= k < j ==> !IsSpecial(inp[k])
    ensures j < end ==> IsSpecial(inp[j])
    decreases end - i
  {
    if i < end && !IsSpecial(inp[i]) then FirstSpecial(inp, i + 1, end) else i
  }

  lemma {:induction false} SkipWsIsUnique(inp: Bytes, i: nat, j: nat)
    requires i <= j <= |inp|
    requires forall k :: i <= k < j ==> IsWs(inp[k])
    requires j < |inp| ==> !IsWs(inp[j])
    ensures SkipWs(inp, i) == j
    decreases |inp| - i
  {
    if i < j { SkipWsIsUnique(inp, i + 1, j); }
  }

  method ScanWs(inp: Bytes, start: nat) returns (p: nat)
    requires start <= |inp|
    ensures p == SkipWs(inp, start)
  {
    p := start;
    while |inp| - p >= 16
      invariant start <= p <= |inp|
      invariant forall k :: start <= k < p ==> IsWs(inp[k])
    {
      if inp[p] > SPACE {
        SkipWsIsUnique(inp, start, p);
        return;
      }
      var q := FirstNonWs(inp, p, p + 16);
      if q < p + 16 {
        SkipWsIsUnique(inp, start, q);
        return q;
      }
      p := p + 16;
    }
    while p < |inp| && IsWs(inp[p])
      invariant start <= p <= |inp|
      invariant forall k :: start <= k < p ==> IsWs(inp[k])
    {
      p := p + 1;
    }
    SkipWsIsUnique(inp, start, p);
  }

  method ScanStringSpecial(inp: Bytes, start: nat) returns (p: nat)
    requires start <= |inp|
    ensures p == SpecialAt(inp, start)
  {
    p := start;
    while |inp| - p >= 16
      invariant start <= p <= |inp|
      invariant forall k :: start <= k < p ==> !IsSpecial(inp[k])
    {
      var q := FirstSpecial(inp, p, p + 16);
      if q < p + 16 {
        return q;
      }
      p := p + 16;
    }
    while p < |inp|
      invariant start <= p <= |inp|
      invariant forall k :: start <= k < p ==> !IsSpecial(inp[k])
    {
      if IsSpecial(inp[p]) { return; }
      p := p + 1;
    }
  }

  predicate AllAscii(inp: Bytes, i: nat, n: nat)
    requires i + n <= |inp|
  {
    forall k :: i <= k < i + n ==> inp[k] < 0x80
  }

  lemma {:induction false} SkipAscii(inp: Bytes, i: nat, n: nat, end: nat)
    requires i + n <= end <= |inp| && AllAscii(inp, i, n)
    ensures InvalidAt(inp, i, end) == InvalidAt(inp, i + n, end)
    decreases n
  {
    if n > 0 { SkipAscii(inp, i + 1, n - 1, end); }
  }

  /** The validator with its eight-byte fast path: the start of the first ill-formed sequence of [start, end), or end. */
  method Utf8InvalidAt(inp: Bytes, start: nat, end: nat) returns (r: nat)
    requires start <= end <= |inp|
    ensures r == InvalidAt(inp, start, end)
  {
    var i := start;
    while i < end
      invariant start <= i <= end
      invariant InvalidAt(inp, i, end) == InvalidAt(inp, start, end)
    {
      if i + 8 <= end && AllAscii(inp, i, 8) {
        SkipAscii(inp, i, 8, end);
        i := i + 8;
        continue;
      }
      var c := inp[i];
      if c < 0x80 {
        i := i + 1;
        continue;
      }
      var l := LeadOf(c);
      if l.BadLead? { return i; }
      if i + l.need >= end { return i; }
      if inp[i + 1] < l.lo || inp[i + 1] > l.hi { return i; }
      var k := 2;
      while k <= l.need
        invariant 2 <= k <= 4
        invariant forall m :: i + 2 <= m < i + k && m <= i + l.need ==> IsContinuation(inp[m])
      {
        if !IsContinuation(inp[i + k]) { return i; }
        k := k + 1;
      }
      i := i + l.need + 1;
    }
    r := end;
  }

  method ScanDigits(inp: Bytes, start: nat, end: nat) returns (q: nat)
    requires start <= end <= |inp|
    ensures q == SkipDigits(inp, start, end)
  {
    q := start;
    while q < end && IsDigit(inp[q])
      invariant start <= q <= end
      invariant SkipDigits(inp, q, end) == SkipDigits(inp, start, end)
    {
      q := q + 1;
    }
  }

  /** The number grammar, part after part. */
  method ScanNumberToken(inp: Bytes, start: nat, end: nat) returns (r: Option<nat>)
    requires start <= end <= |inp|
    ensures r == ScanNumber(inp, start, end)
  {
    hide ScanInteger, ScanFraction, ScanExponent;
    r := IntegerPart(inp, start, end);
    if r == None { return; }
    r := FractionPart(inp, r.value, end);
    if r == None { return; }
    r := ExponentPart(inp, r.value, end);
  }

  method IntegerPart(inp: Bytes, start: nat, end: nat) returns (r: Option<nat>)
    requires start <= end <= |inp|
    ensures r == ScanInteger(inp, start, end)
  {
    var q := start;
    if q < end && inp[q] == MINUS { q := q + 1; }
    if q >= end { return None; }
    if inp[q] == ZERO {
      q := q + 1;
    } else if 0x31 <= inp[q] <= NINE {
      q := ScanDigits(inp, q, end);
    } else {
      return None;
    }
    return Some(q);
  }

  method FractionPart(inp: Bytes, start: nat, end: nat) returns (r: Option<nat>)
    requires start <= end <= |inp|
    ensures r == ScanFraction(inp, start, end)
  {
    var q := start;
    if q < end && inp[q] == DOT {
      q := q + 1;
      if q >= end || !IsDigit(inp[q]) { return None; }
      q := ScanDigits(inp, q, end);
    }
    return Some(q);
  }

  method ExponentPart(inp: Bytes, start: nat, end: nat) returns (r: Option<nat>)
    requires start <= end <= |inp|
    ensures r == ScanExponent(inp, start, end)
  {
    var q := start;
    if q < end && (inp[q] == LOWER_E || inp[q] == UPPER_E) {
      q := q + 1;
      if q < end && (inp[q] == PLUS || inp[q] == MINUS) { q := q + 1; }
      if q >= end || !IsDigit(inp[q]) { return None; }
      q := ScanDigits(inp, q, end);
    }
    return Some(q);
  }
}
