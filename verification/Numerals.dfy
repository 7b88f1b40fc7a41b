/** Numerals as text: digits, their mathematical value and the shortest numeral of a value. */
module Numerals {
  import opened Arithmetic
  import opened CStrings

  const WORD: nat := 0x1_0000_0000
  const SIGN_BIT: int := 0x8000_0000

  /** 32-bit wrap-around. */
  function Wrapped(x: nat): (w: nat)
    ensures w < WORD && (x < WORD ==> w == x)
  {
    x % WORD
  }

  lemma WrapAdd(k: nat, x: nat)
    ensures (WORD * k + x) % WORD == x % WORD
  {
  }

  /** 32-bit wrap-around at every digit is wrap-around of the whole value. */
  lemma WrapStep(v: nat, base: nat, digit: nat)
    ensures Wrapped(Wrapped(Wrapped(v) * base) + digit) == Wrapped(v * base + digit)
    ensures Wrapped(Wrapped(v * base) + digit) == Wrapped(v * base + digit)
    ensures Wrapped(Wrapped(v) * base + digit) == Wrapped(v * base + digit)
  {
    var q, r := v / WORD, v % WORD;
    assert v * base == WORD * (q * base) + r * base by {
      assert v == WORD * q + r;
    }
    WrapAdd(q * base, r * base + digit);
    WrapAdd(r * base / WORD, r * base % WORD + digit);
    WrapAdd(v * base / WORD, v * base % WORD + digit);
  }

  /** The value of a digit or letter (36 for anything else). */
  function DigitOf(c: char): (d: nat)
    ensures d <= 36
  {
    if '0' <= c <= '9' then c as int - '0' as int
    else if 'a' <= c <= 'z' then c as int - 'a' as int + 10
    else if 'A' <= c <= 'Z' then c as int - 'A' as int + 10
    else 36
  }

  function DigitChar(d: nat): (c: char)
    requires d < 36
    ensures DigitOf(c) == d && c != NUL
  {
    if d <= 9 then '0' + d as char else 'a' + (d - 10) as char
  }

  predicate IsDigit(c: char, base: nat) {
    DigitOf(c) < base
  }

  /** Every character is a digit of `base`. */
  predicate AllDigits(s: string, base: nat) {
    forall i :: 0 <= i < |s| ==> IsDigit(s[i], base)
  }

  /** The mathematical value of a digit string. */
  function Value(s: string, base: nat): nat {
    if s == "" then 0 else Value(s[..|s|-1], base) * base + DigitOf(s[|s|-1])
  }

  lemma {:induction false} LeadingZero(s: string, base: nat)
    requires s != "" && DigitOf(s[0]) == 0
    ensures Value(s[1..], base) == Value(s, base)
  {
    var n := |s|;
    if n > 1 {
      LeadingZero(s[..n-1], base);
      assert s[1..][..n-2] == s[..n-1][1..];
    } else {
      assert s[..0] == "";
    }
  }

  /** The numeral of `v`, without leading zeros. */
  function Numeral(v: nat, base: nat): (s: string)
    requires 2 <= base <= 36
    ensures s != "" && AllDigits(s, base)
    decreases v
  {
    QuotRem(v, base);
    if v < base then [DigitChar(v)] else Numeral(Quot(v, base), base) + [DigitChar(Rem(v, base))]
  }

  lemma ValueAppend(s: string, c: char, base: nat)
    ensures Value(s + [c], base) == Value(s, base) * base + DigitOf(c)
  {
    assert (s + [c])[..|s|] == s;
  }

  lemma {:induction false} NumeralValue(v: nat, base: nat)
    requires 2 <= base <= 36
    ensures Value(Numeral(v, base), base) == v
    decreases v
  {
    hide Value, Quot, Rem;
    QuotRem(v, base);
    if v < base {
      ValueAppend("", DigitChar(v), base);
      ValueNone(base);
      assert "" + [DigitChar(v)] == Numeral(v, base);
    } else {
      NumeralValue(Quot(v, base), base);
      ValueAppend(Numeral(Quot(v, base), base), DigitChar(Rem(v, base)), base);
    }
  }

  lemma NumeralDigits(v: nat, base: nat)
    requires 2 <= base <= 36
    ensures Numeral(v, base) != "" && AllDigits(Numeral(v, base), base)
  {
  }

  lemma ValueNone(base: nat)
    ensures Value("", base) == 0
  {
  }

  /** No numeral has a leading zero, except zero itself. */
  lemma {:induction false} NumeralLeads(v: nat, base: nat)
    requires 2 <= base <= 36
    ensures DigitOf(Numeral(v, base)[0]) == 0 <==> v == 0
    ensures v == 0 ==> Numeral(v, base) == "0"
    decreases v
  {
    hide Quot, Rem;
    QuotRem(v, base);
    if v >= base {
      NumeralLeads(Quot(v, base), base);
    }
  }

  /** Digits written the way `btoa` writes them. */
  predicate LowerCase(s: string) {
    forall i :: 0 <= i < |s| ==> !('A' <= s[i] <= 'Z')
  }

  lemma DigitCharOf(c: char)
    requires DigitOf(c) < 36 && !('A' <= c <= 'Z')
    ensures DigitChar(DigitOf(c)) == c
  {
  }

  /** A digit string without leading zeros is the numeral of its value. */
  lemma {:induction false} CanonicalNumeral(s: string, base: nat)
    requires 2 <= base <= 36 && s != "" && AllDigits(s, base) && LowerCase(s)
    requires |s| == 1 || DigitOf(s[0]) != 0
    ensures Numeral(Value(s, base), base) == s
    ensures DigitOf(s[0]) != 0 ==> Value(s, base) > 0
  {
    hide Value, Quot, Rem, Numeral;
    var init, last := s[..|s|-1], s[|s|-1];
    assert s == init + [last] && IsDigit(last, base);
    ValueAppend(init, last, base);
    if |s| == 1 {
      assert init == "";
      ValueNone(base);
      NumeralAppend(0, last, base);
    } else {
      CanonicalNumeral(init, base);
      TimesMonotone(1, Value(init, base), base);
      NumeralAppend(Value(init, base), last, base);
    }
  }

  lemma NumeralAppend(q: nat, c: char, base: nat)
    requires 2 <= base <= 36 && IsDigit(c, base) && !('A' <= c <= 'Z')
    ensures Numeral(q * base + DigitOf(c), base) == if q == 0 then [c] else Numeral(q, base) + [c]
  {
    hide Quot, Rem;
    DigitCharOf(c);
    QuotUnique(q, base, DigitOf(c));
    if q > 0 {
      TimesMonotone(1, q, base);
    }
  }

  function Power(b: nat, n: nat): nat {
    if n == 0 then 1 else b * Power(b, n - 1)
  }

  /** A value below `b^n` has at most `n` digits in any base from `b` up. */
  lemma {:induction false} NumeralLength(v: nat, base: nat, b: nat, n: nat)
    requires 2 <= b <= base <= 36 && n > 0 && v < Power(b, n)
    ensures |Numeral(v, base)| <= n
    decreases v
  {
    hide Quot, Rem;
    QuotRem(v, base);
    if v >= base {
      var q, p := Quot(v, base), Power(b, n - 1);
      TimesMonotone(b, base, q);
      if q >= p {
        TimesMonotone(p, q, b);
      }
      assert n > 1;
      NumeralLength(q, base, b, n - 1);
    }
  }

  /** A 32-bit value has at most ten digits from base 10 up. */
  lemma DigitsFit(v: nat, base: nat)
    requires v < WORD && 10 <= base <= 36
    ensures |Numeral(v, base)| <= 10
  {
    assert Power(10, 5) == 100_000;
    assert Power(10, 10) == 10_000_000_000;
    NumeralLength(v, base, 10, 10);
  }

  // ---------- digit runs inside a text ----------

  /** The end of the run of digits of `base` that starts at `i`. */
  function DigitsEnd(s: string, i: nat, base: nat): (r: nat)
    requires i <= |s|
    ensures i <= r <= |s| && AllDigits(s[i..r], base) && (r < |s| ==> !IsDigit(s[r], base))
    decreases |s| - i
  {
    if i < |s| && IsDigit(s[i], base) then
      var r := DigitsEnd(s, i + 1, base);
      assert s[i..r] == [s[i]] + s[i+1..r];
      r
    else i
  }

  lemma ValueGrows(s: string, start: nat, i: nat, base: nat)
    requires start <= i < |s|
    ensures Value(s[start..i+1], base) == Value(s[start..i], base) * base + DigitOf(s[i])
  {
    assert s[start..i+1][..i-start] == s[start..i];
  }

  /** The digits of a numeral are followed by something that does not extend them. */
  predicate Ends(tail: string, base: nat) {
    tail == "" || !IsDigit(tail[0], base)
  }

  lemma DigitsFound(s: string, i: nat, digits: string, tail: string, base: nat)
    requires i <= |s| && s[i..] == digits + tail && AllDigits(digits, base) && Ends(tail, base)
    ensures DigitsEnd(s, i, base) == i + |digits| && s[i..i+|digits|] == digits
  {
    hide IsDigit;
    var e := i + |digits|;
    forall k | i <= k < e ensures s[k] == digits[k-i] && IsDigit(s[k], base) {
      assert s[k] == s[i..][k-i] == digits[k-i];
    }
    assert s[i..e] == digits;
    if e < |s| {
      assert s[e] == s[i..][|digits|] == tail[0];
    }
    DigitsEndAt(s, i, e, base);
  }

  lemma {:induction false} DigitsEndAt(s: string, i: nat, e: nat, base: nat)
    requires i <= e <= |s| && (forall k :: i <= k < e ==> IsDigit(s[k], base)) && (e < |s| ==> !IsDigit(s[e], base))
    ensures DigitsEnd(s, i, base) == e
    decreases e - i
  {
    if i < e {
      DigitsEndAt(s, i + 1, e, base);
    }
  }

  // ---------- upper case and padding ----------

  function ToUpper(c: char): char {
    if 'a' <= c <= 'z' then c - 'a' + 'A' else c
  }

  function Upper(s: string): (r: string)
    ensures |r| == |s| && forall i :: 0 <= i < |s| ==> r[i] == ToUpper(s[i])
  {
    seq(|s|, i requires 0 <= i < |s| => ToUpper(s[i]))
  }

  lemma {:induction false} UpperValue(s: string, base: nat)
    ensures Value(Upper(s), base) == Value(s, base)
    ensures AllDigits(Upper(s), base) <==> AllDigits(s, base)
  {
    assert forall i :: 0 <= i < |s| ==> DigitOf(Upper(s)[i]) == DigitOf(s[i]);
    if s != "" {
      var n := |s| - 1;
      UpperValue(s[..n], base);
      assert Upper(s)[..n] == Upper(s[..n]);
    }
  }

  function Repeat(c: char, n: nat): (r: string)
    ensures |r| == n && forall i :: 0 <= i < n ==> r[i] == c
  {
    seq(n, _ => c)
  }

  /** Zeros in front of a numeral do not change its value. */
  lemma {:induction false} PaddedValue(n: nat, s: string, base: nat)
    ensures Value(Repeat('0', n) + s, base) == Value(s, base)
  {
    if n == 0 {
      assert Repeat('0', 0) + s == s;
    } else {
      PaddedValue(n - 1, s, base);
      var r := Repeat('0', n) + s;
      assert r[1..] == Repeat('0', n - 1) + s;
      LeadingZero(r, base);
    }
  }

  // ---------- shortest numerals ----------

  /** Digits of the base that denote `w`, with no zero in front except for zero itself. */
  predicate DigitsOf(text: string, base: nat, w: nat) {
    text != "" && AllDigits(text, base) && Value(text, base) == w && (text[0] == '0' ==> text == "0")
  }

  predicate UpperCase(s: string) {
    forall i :: 0 <= i < |s| ==> !('a' <= s[i] <= 'z')
  }

  lemma NumeralIsDigits(w: nat, base: nat)
    requires 2 <= base <= 36
    ensures DigitsOf(Numeral(w, base), base, w) && LowerCase(Numeral(w, base))
  {
    hide Value, Numeral, AllDigits, LowerCase;
    NumeralValue(w, base);
    NumeralLeads(w, base);
    NumeralIsLower(w, base);
    assert AllDigits(Numeral(w, base), base);
  }

  lemma {:induction false} NumeralIsLower(w: nat, base: nat)
    requires 2 <= base <= 36
    ensures LowerCase(Numeral(w, base))
    decreases w
  {
    hide Quot, Rem;
    QuotRem(w, base);
    if w >= base {
      NumeralIsLower(Quot(w, base), base);
    }
  }

  /** In capitals the digits denote the same. */
  lemma UpperCased(text: string, base: nat, w: nat)
    ensures UpperCase(Upper(text))
    ensures DigitsOf(text, base, w) ==> DigitsOf(Upper(text), base, w)
  {
    hide Value;
    UpperValue(text, base);
    assert text != "" && Upper(text)[0] == '0' ==> text[0] == '0';
  }
}
