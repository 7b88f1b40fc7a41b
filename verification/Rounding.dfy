/** The digit-string work of vsprintf.c: `round` on decimal digits in place, with the rounding digit
    given, and `exponent`. */
module Rounding {
  import opened Arithmetic
  import opened CStrings
  import opened Numerals

  predicate DigitOrPoint(c: char) {
    '0' <= c <= '9' || c == '.'
  }

  /** Decimal digits with at most one point among them, not in front. */
  ghost predicate Decimal(t: string) {
    && t != "" && t[0] != '.'
    && (forall i :: 0 <= i < |t| ==> DigitOrPoint(t[i]))
    && (forall i, j :: 0 <= i < j < |t| ==> !(t[i] == '.' && t[j] == '.'))
  }

  /** The number the digits denote in units of the last place: the point is skipped. */
  function Units(t: string): nat {
    if t == "" then 0
    else if t[|t|-1] == '.' then Units(t[..|t|-1])
    else Units(t[..|t|-1]) * 10 + DigitOf(t[|t|-1])
  }

  /** Every digit is `c`. */
  predicate AllOf(t: string, c: char) {
    forall i :: 0 <= i < |t| ==> t[i] == c || t[i] == '.'
  }

  /** Every digit replaced by zero, the point left in place. */
  function Zeroed(t: string): (z: string)
    ensures |z| == |t| && forall i :: 0 <= i < |t| ==> z[i] == if t[i] == '.' then '.' else '0'
  {
    seq(|t|, i requires 0 <= i < |t| => if t[i] == '.' then '.' else '0')
  }

  lemma UnitsAppend(t: string, c: char)
    ensures Units(t + [c]) == if c == '.' then Units(t) else Units(t) * 10 + DigitOf(c)
  {
    assert (t + [c])[..|t|] == t;
  }

  /** Adding one in front of a run of nines and zeroing the run adds one behind it. */
  lemma {:induction false} CarryOver(x: string, y: string, nines: string)
    requires AllOf(nines, '9') && Units(y) == Units(x) + 1
    ensures Units(y + Zeroed(nines)) == Units(x + nines) + 1
  {
    hide Units;
    if nines == "" {
      assert y + Zeroed(nines) == y && x + nines == x;
    } else {
      var n := |nines| - 1;
      var init, last := nines[..n], nines[n];
      CarryOver(x, y, init);
      assert x + nines == (x + init) + [last];
      assert y + Zeroed(nines) == (y + Zeroed(init)) + [if last == '.' then '.' else '0'];
      UnitsAppend(x + init, last);
      UnitsAppend(y + Zeroed(init), if last == '.' then '.' else '0');
    }
  }

  /** Behind a run of zeros a factor of ten carries over. */
  lemma {:induction false} ScaleOver(x: string, y: string, zeros: string)
    requires AllOf(zeros, '0') && Units(y) == 10 * Units(x)
    ensures Units(y + zeros) == 10 * Units(x + zeros)
  {
    hide Units;
    if zeros == "" {
      assert y + zeros == y && x + zeros == x;
    } else {
      var n := |zeros| - 1;
      var init, last := zeros[..n], zeros[n];
      ScaleOver(x, y, init);
      assert x + zeros == (x + init) + [last] && y + zeros == (y + init) + [last];
      UnitsAppend(x + init, last);
      UnitsAppend(y + init, last);
    }
  }

  lemma Zeros(t: string)
    ensures AllOf(Zeroed(t), '0')
  {
  }

  /** All nines, f form: one more digit in front. */
  lemma NinesGain(t: string)
    requires AllOf(t, '9')
    ensures Units("1" + Zeroed(t)) == Units(t) + 1
  {
    UnitsAppend("", '1');
    assert "" + "1" == "1" && "" + t == t && Units("") == 0;
    CarryOver("", "1", t);
  }

  /** All nines, e form: a one and zeros, worth ten times as much per unit. */
  lemma NinesScale(t: string)
    requires t != "" && t[0] == '9' && AllOf(t, '9')
    ensures Units("1" + Zeroed(t)[1..]) * 10 == Units(t) + 1
  {
    NinesGain(t);
    UnitsAppend("", '1');
    UnitsAppend("1", '0');
    assert "" + "1" == "1" && "1" + "0" == "10" && Units("") == 0;
    var z := Zeroed(t)[1..];
    Zeros(t);
    ScaleOver("1", "10", z);
    assert "1" + Zeroed(t) == "10" + z;
  }

  /** The rounded-up digits: the digit before the trailing nines goes up, the nines become zeros. */
  lemma CarryStops(x: string, c: char, nines: string)
    requires '0' <= c < '9' && AllOf(nines, '9')
    ensures Units(x + [(c as int + 1) as char] + Zeroed(nines)) == Units(x + [c] + nines) + 1
  {
    var up := (c as int + 1) as char;
    UnitsAppend(x, c);
    UnitsAppend(x, up);
    CarryOver(x + [c], x + [up], nines);
  }

  /** Digits stay digits and the point stays where it is. */
  predicate SameShape(t: string, u: string) {
    |t| == |u| && forall i :: 0 <= i < |t| ==> DigitOrPoint(u[i]) && (u[i] == '.' <==> t[i] == '.')
  }

  /** What rounding up makes of the digits `t`: one more unit in the last place. */
  ghost predicate OneMore(t: string, eform: bool, exp: int, u: string, exp': int) {
    if !AllOf(t, '9') then
      exp' == exp && SameShape(t, u) && Units(u) == Units(t) + 1
    else if eform then
      exp' == exp + 1 && t != "" && SameShape(t, u) && u == "1" + Zeroed(t)[1..] && Units(u) * 10 == Units(t) + 1
    else
      exp' == exp && u == "1" + Zeroed(t) && Units(u) == Units(t) + 1
  }

  lemma NinesRoll(t: string, eform: bool, exp: int)
    requires Decimal(t) && AllOf(t, '9')
    ensures OneMore(t, eform, exp,
                    if eform then "1" + Zeroed(t)[1..] else "1" + Zeroed(t), if eform then exp + 1 else exp)
  {
    hide Units;
    NinesGain(t);
    NinesScale(t);
  }

  lemma CarryEnds(t: string, e: nat, eform: bool, exp: int)
    requires Decimal(t) && e < |t| && '0' <= t[e] < '9' && AllOf(t[e+1..], '9')
    ensures OneMore(t, eform, exp, t[..e] + [(t[e] as int + 1) as char] + Zeroed(t[e+1..]), exp)
  {
    hide Units, SameShape, AllOf, Decimal, Zeroed;
    CarryStops(t[..e], t[e], t[e+1..]);
    assert t == t[..e] + [t[e]] + t[e+1..];
    CarryShape(t, e);
  }

  lemma CarryShape(t: string, e: nat)
    requires Decimal(t) && e < |t| && '0' <= t[e] < '9' && AllOf(t[e+1..], '9')
    ensures !AllOf(t, '9') && SameShape(t, t[..e] + [(t[e] as int + 1) as char] + Zeroed(t[e+1..]))
  {
    assert forall i :: e < i < |t| ==> t[i] == t[e+1..][i-e-1];
  }

  /** The digits before index `e` are as they were; those from `e` on were nines and are zeroed. */
  ghost predicate Carried(t: string, u: string, e: nat) {
    && e <= |t| == |u| && u[..e] == t[..e] && u[e..] == Zeroed(t[e..]) && AllOf(t[e..], '9')
  }

  lemma CarryPast(t: string, u: string, e: nat)
    requires e < |t| && Carried(t, u, e + 1)
    ensures u[e] == t[e]
    ensures t[e] == '.' ==> Carried(t, u, e)
    ensures t[e] == '9' ==> Carried(t, u[e := '0'], e)
    ensures forall c :: u[e := c] == t[..e] + [c] + Zeroed(t[e+1..])
  {
    assert u[..e+1][..e] == u[..e];
    assert u[e] == u[..e+1][e];
    assert u == u[..e] + [u[e]] + u[e+1..];
    assert t[e..] == [t[e]] + t[e+1..];
    assert Zeroed(t[e..]) == [if t[e] == '.' then '.' else '0'] + Zeroed(t[e+1..]);
    assert u[e := '0'][e..] == ['0'] + u[e+1..] && u[e..] == [u[e]] + u[e+1..];
  }

  lemma CarriedAll(t: string, u: string)
    requires Carried(t, u, 0)
    ensures u == Zeroed(t) && AllOf(t, '9')
  {
    assert t[0..] == t && u[0..] == u;
  }

  lemma DecimalAt(t: string, e: nat)
    requires Decimal(t) && e < |t|
    ensures DigitOrPoint(t[e])
    ensures t[e] == '.' ==> 0 < e && '0' <= t[e-1] <= '9'
  {
  }

  lemma CarryStart(t: string)
    ensures Carried(t, t, |t|)
  {
  }

  /** The carry loop of `round`: in f form a carry out of the first digit takes the slot before it. */
  method CarryUp(a: array<char>, start0: nat, end0: nat, eform: bool, exp0: int) returns (start: nat, exp: int)
    requires 0 < start0 <= end0 < a.Length && Decimal(a[start0..end0+1])
    modifies a
    ensures start0 - 1 <= start <= start0 && OnlyWithin(a, start, end0 + 1)
    ensures OneMore(old(a[start0..end0+1]), eform, exp0, a[start..end0+1], exp)
  {
    hide Units, OneMore, Carried, AllOf, Decimal, Zeroed;
    start, exp := start0, exp0;
    var end := end0;
    ghost var t := a[start0..end0+1];
    CarryStart(t);
    while true
      invariant start == start0 <= end <= end0 && exp == exp0
      invariant Carried(t, a[start0..end0+1], end - start0 + 1)
      invariant OnlyWithin(a, start0, end0 + 1)
      decreases end
    {
      var carries;
      end, carries := CarryDigit(a, start, end0, end, eform, exp, t);
      if !carries {
        break;
      }
      if end == start {
        CarriedAll(t, a[start0..end0+1]);
        start, exp := RollOver(a, start, end0, eform, exp, t);
        break;
      }
      end := end - 1;
    }
  }

  /** One turn of the carry loop: the digit at `end`, or the one before the point there, goes up. */
  method CarryDigit(a: array<char>, start: nat, end0: nat, end1: nat, eform: bool, exp: int, ghost t: string)
    returns (end: nat, carries: bool)
    requires start <= end1 <= end0 < a.Length && Decimal(t) && |t| == end0 + 1 - start
    requires Carried(t, a[start..end0+1], end1 - start + 1)
    modifies a
    ensures start <= end <= end1 && OnlyWithin(a, start, end0 + 1)
    ensures carries ==> Carried(t, a[start..end0+1], end - start)
    ensures !carries ==> OneMore(t, eform, exp, a[start..end0+1], exp)
  {
    hide Units, OneMore, Carried, AllOf, Decimal, Zeroed;
    end := end1;
    ghost var u := a[start..end0+1];
    CarryPast(t, u, end - start);
    DecimalAt(t, end - start);
    assert a[end] == u[end-start] == t[end-start];
    if a[end] == '.' {
      end := end - 1;
      CarryPast(t, u, end - start);
    }
    ghost var e := end - start;
    ghost var was := a[..];
    a[end] := (a[end] as int + 1) as char;
    if a[end] <= '9' {
      StopsAt(t, u, e, eform, exp);
      OneChanged(was, a[..], start, end0 + 1, end);
      return end, false;
    }
    a[end] := '0';
    OneChanged(was, a[..], start, end0 + 1, end);
    return end, true;
  }

  lemma OneChanged(s: string, s': string, lo: nat, hi: nat, k: nat)
    requires lo <= k < hi <= |s| == |s'| && s' == s[k := s'[k]]
    ensures s'[lo..hi] == s[lo..hi][k - lo := s'[k]]
  {
  }

  /** The carry out of the first digit. */
  method RollOver(a: array<char>, start0: nat, end0: nat, eform: bool, exp0: int, ghost t: string)
    returns (start: nat, exp: int)
    requires 0 < start0 <= end0 < a.Length && Decimal(t) && AllOf(t, '9') && a[start0..end0+1] == Zeroed(t)
    modifies a
    ensures start0 - 1 <= start <= start0 && OnlyWithin(a, start, end0 + 1)
    ensures OneMore(t, eform, exp0, a[start..end0+1], exp)
  {
    hide Units, OneMore, AllOf;
    NinesRoll(t, eform, exp0);
    start, exp := start0, exp0;
    var end := start;
    if eform {
      a[end] := '1';
      exp := exp + 1;
      assert a[start0..end0+1] == "1" + Zeroed(t)[1..];
    } else {
      end := end - 1;
      a[end] := '1';
      start := start - 1;
      assert a[start..end0+1] == "1" + Zeroed(t);
    }
  }

  lemma StopsAt(t: string, u: string, e: nat, eform: bool, exp: int)
    requires Decimal(t) && e < |t| && Carried(t, u, e + 1) && '0' <= t[e] < '9'
    ensures OneMore(t, eform, exp, u[e := (t[e] as int + 1) as char], exp)
  {
    hide Units, OneMore;
    CarryPast(t, u, e);
    CarryEnds(t, e, eform, exp);
  }

  /** Somewhere below `start` there is a slot that does not look like a zero or a point. */
  ghost predicate Guarded(t: string, start: nat) {
    exists q :: 0 <= q < start && q < |t| && t[q] != '0' && t[q] != '.'
  }

  /** When nothing is rounded up, the search for a digit other than zero. Having passed the first
      digit it goes on below it, and only what stands there stops it. */
  method ClearSign(a: array<char>, start: nat, end0: nat) returns (sign: char)
    requires start <= end0 < a.Length && Decimal(a[start..end0+1]) && Guarded(a[..], start)
    ensures sign == if AllOf(a[start..end0+1], '0') then NUL else '-'
  {
    sign := '-';
    var end := end0;
    ghost var t := a[start..end0+1];
    ghost var q :| 0 <= q < start && a[q] != '0' && a[q] != '.';
    while true
      invariant q <= end <= end0
      invariant forall i :: 0 <= i < |t| && end + 1 - start <= i ==> t[i] == '0' || t[i] == '.'
      invariant sign == if end < start then NUL else '-'
      decreases end
    {
      assert end >= start ==> a[end] == t[end-start];
      if a[end] == '.' {
        end := end - 1;
        assert end >= start ==> a[end] == t[end-start];
      }
      if a[end] != '0' {
        break;
      }
      if end == start {
        sign := NUL;
      }
      end := end - 1;
    }
  }

  /** `round`: `digit` is the digit behind the last place, `exp` matters in e form, `sign` is '-' or NUL. */
  method Round(a: array<char>, start0: nat, end: nat, eform: bool, exp0: int, digit: int, sign0: char)
    returns (start: nat, exp: int, sign: char)
    requires 0 < start0 <= end < a.Length && Decimal(a[start0..end+1])
    requires digit <= 4 && sign0 == '-' ==> Guarded(a[..], start0)
    modifies a
    ensures start0 - 1 <= start <= start0 && OnlyWithin(a, start, end + 1)
    ensures digit > 4 ==> sign == sign0 && OneMore(old(a[start0..end+1]), eform, exp0, a[start..end+1], exp)
    ensures digit <= 4 ==> start == start0 && exp == exp0 && a[..] == old(a[..])
    ensures digit <= 4 ==> sign == if sign0 == '-' && AllOf(a[start0..end+1], '0') then NUL else sign0
  {
    start, exp, sign := start0, exp0, sign0;
    if digit > 4 {
      start, exp := CarryUp(a, start0, end, eform, exp0);
    } else if sign == '-' {
      sign := ClearSign(a, start0, end);
    }
  }

  // ---------- the exponent ----------

  /** The exponent field: letter, sign and at least two digits. */
  function ExponentText(exp: int, fmtch: char): string {
    var m := if exp < 0 then -exp else exp;
    [fmtch, if exp < 0 then '-' else '+'] + (if m < 10 then "0" else "") + Numeral(m, 10)
  }

  /** The field is the letter, a minus sign exactly for a negative exponent and a plus sign otherwise, and the
      digits of its magnitude, at least two of them and no more zeros in front than that takes. */
  lemma ExponentMeans(exp: int, fmtch: char)
    ensures var (s, m) := (ExponentText(exp, fmtch), if exp < 0 then -exp else exp);
      && |s| >= 4 && s[0] == fmtch && s[1] == (if exp < 0 then '-' else '+')
      && AllDigits(s[2..], 10) && Value(s[2..], 10) == m && (|s| > 4 ==> s[2] != '0')
  {
    hide Value, Numeral, AllDigits, DigitsOf;
    var m := if exp < 0 then -exp else exp;
    var text := (if m < 10 then "0" else "") + Numeral(m, 10);
    assert ExponentText(exp, fmtch)[2..] == text;
    NumeralIsDigits(m, 10);
    ExponentDigits(m, text);
  }

  lemma ExponentDigits(m: nat, text: string)
    requires text == (if m < 10 then "0" else "") + Numeral(m, 10) && DigitsOf(Numeral(m, 10), 10, m)
    ensures |text| >= 2 && AllDigits(text, 10) && Value(text, 10) == m && (|text| > 2 ==> text[0] != '0')
  {
    hide Value;
    LastDigit(m);
    if m < 10 {
      LeadingZero(text, 10);
      assert text[1..] == Numeral(m, 10);
    } else {
      assert text == Numeral(m, 10);
    }
  }

  method Exponent(a: array<char>, p0: nat, exp0: int, fmtch: char) returns (p: nat)
    requires -0x8000_0000 < exp0 < 0x8000_0000 && p0 + |ExponentText(exp0, fmtch)| <= a.Length
    modifies a
    ensures p == p0 + |ExponentText(exp0, fmtch)| && a[p0..p] == ExponentText(exp0, fmtch)
    ensures OnlyWithin(a, p0, p)
  {
    hide Numeral, AllDigits, DigitChar, ExponentText;
    p := p0;
    var exp := exp0;
    ExponentParts(exp, fmtch);
    a[p] := fmtch;
    p := p + 1;
    if exp < 0 {
      exp := -exp;
      a[p] := '-';
    } else {
      a[p] := '+';
    }
    p := p + 1;
    ghost var front := a[p0..p];
    assert front == [fmtch, if exp0 < 0 then '-' else '+'];
    if exp > 9 {
      p := WideExponent(a, p, exp);
    } else {
      a[p] := '0';
      a[p+1] := DigitChar(exp);
      p := p + 2;
      assert a[p-2..p] == ['0', DigitChar(exp)];
    }
    assert a[p0..p] == front + a[p0+2..p];
  }

  lemma ExponentParts(exp: int, fmtch: char)
    ensures var m := if exp < 0 then -exp else exp;
      ExponentText(exp, fmtch)
      == [fmtch, if exp < 0 then '-' else '+'] + (if m > 9 then Numeral(m, 10) else ['0', DigitChar(m)])
  {
    hide Numeral;
    var m := if exp < 0 then -exp else exp;
    LastDigit(m);
    assert m < 10 ==> "0" + Numeral(m, 10) == ['0', DigitChar(m)];
    assert "" + Numeral(m, 10) == Numeral(m, 10);
  }

  /** Exponents of two digits and more: into a local buffer from the back, then copied. */
  method WideExponent(a: array<char>, p0: nat, exp: nat) returns (p: nat)
    requires 9 < exp < 0x8000_0000 && p0 + |Numeral(exp, 10)| <= a.Length
    modifies a
    ensures p == p0 + |Numeral(exp, 10)| && a[p0..p] == Numeral(exp, 10) && OnlyWithin(a, p0, p)
  {
    hide Numeral;
    ghost var text := Numeral(exp, 10);
    var buf := new char[512];
    var t := FillFromBack(buf, exp);
    p := p0;
    ghost var t0 := t;
    while t < 512
      invariant t0 <= t <= 512 && p == p0 + (t - t0) && a[p0..p] == text[..t-t0]
      invariant buf[t0..512] == text && OnlyWithin(a, p0, p)
    {
      assert buf[t] == text[t-t0];
      a[p] := buf[t];
      p, t := p + 1, t + 1;
    }
  }

  method FillFromBack(buf: array<char>, exp0: nat) returns (t: nat)
    requires 9 < exp0 < 0x8000_0000 && buf.Length == 512
    modifies buf
    ensures t <= 512 && buf[t..512] == Numeral(exp0, 10)
  {
    hide Quot, Rem, Numeral, AllDigits, DigitChar;
    ghost var text := Numeral(exp0, 10);
    DigitsFit(exp0, 10);
    var exp := exp0;
    t := 512;
    assert buf[t..512] == "";
    while true
      invariant 502 <= t <= 512 && |text| <= 10 && exp > 9
      invariant text == Numeral(exp, 10) + buf[t..512]
      decreases exp
    {
      QuotRem(exp, 10);
      LastDigit(exp);
      ghost var low := buf[t..512];
      t := t - 1;
      buf[t] := DigitChar(Rem(exp, 10));
      exp := Quot(exp, 10);
      assert buf[t..512] == [buf[t]] + low;
      if !(exp > 9) {
        break;
      }
    }
    LastDigit(exp);
    ghost var low := buf[t..512];
    t := t - 1;
    buf[t] := DigitChar(exp);
    assert buf[t..512] == [buf[t]] + low;
  }

  lemma LastDigit(v: nat)
    ensures Numeral(v, 10) == if v < 10 then [DigitChar(v)] else Numeral(Quot(v, 10), 10) + [DigitChar(Rem(v, 10))]
  {
    hide Quot, Rem;
  }
}
