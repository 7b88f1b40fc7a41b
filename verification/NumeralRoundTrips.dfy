/** Printing and reading 32-bit numerals undo each other. */
module NumeralRoundTrips {
  import opened Numerals
  import opened Strtoul
  import opened Atob
  import opened Wrappers

  /** `_atob` recovers what `btoa` printed, up to base 16 always, above it unless a digit beyond `f`
      makes it refuse the text. */
  lemma AtobReadsBtoa(v: nat, base: nat)
    requires v < WORD && 2 <= base <= 36
    ensures var s := BtoaText(v, base);
      && AtobValue(s, base) == (if AllDigits(s, 16) then Some(v) else None)
      && (base <= 16 ==> AllDigits(s, 16))
  {
    hide Value, AllDigits, Numeral, First;
    var s := BtoaText(v, base);
    NumeralValue(v, base);
    NumeralDigits(v, base);
    DigitsWiden(s, base);
    if AllDigits(s, 16) {
      PlainDigits(s, base);
    } else {
      NumeralLeads(v, base);
      NoPoint(s, base);
    }
  }

  lemma DigitsWiden(s: string, base: nat)
    ensures base <= 16 && AllDigits(s, base) ==> AllDigits(s, 16)
  {
  }

  /** A digit string that does not start with a zero has neither a prefix nor a segment. */
  lemma NoPoint(s: string, base: nat)
    requires base <= 36 && AllDigits(s, base) && s != "" && (DigitOf(s[0]) != 0 || s == "0")
    ensures !HexPrefix(s) && First(s, '.') == |s|
  {
    assert forall i :: 0 <= i < |s| ==> IsDigit(s[i], base) && s[i] != '.';
  }

  /** A string of digits `_atob` knows has neither a prefix nor a segment. */
  lemma PlainDigits(s: string, base: nat)
    requires AtobDigits(s, base)
    ensures AtobValue(s, base) == Some(Wrapped(Value(s, base)))
  {
    assert forall i :: 0 <= i < |s| ==> IsDigit(s[i], base) && s[i] != '.' && s[i] != 'x' && s[i] != 'X';
  }

  /** `btoa` reproduces every canonical lower-case numeral that `_atob` accepts and that fits. */
  lemma BtoaReprints(s: string, base: nat)
    requires 2 <= base <= 36 && s != "" && AtobDigits(s, base) && LowerCase(s)
    requires (|s| == 1 || s[0] != '0') && Value(s, base) < WORD
    ensures AtobValue(s, base).Some? && BtoaText(AtobValue(s, base).value, base) == s
  {
    hide AtobValue, Value, Numeral, LowerCase;
    assert IsDigit(s[0], base);
    assert DigitOf(s[0]) == 0 ==> s[0] == '0';
    PlainDigits(s, base);
    CanonicalNumeral(s, base);
    assert BtoaText(Value(s, base), base) == Numeral(Value(s, base), base);
  }

  /** Under any base a hexadecimal prefix of either case makes the digits hexadecimal. */
  lemma AtobReadsPrefix(prefix: string, digits: string, base: nat)
    requires (prefix == "0x" || prefix == "0X") && AllDigits(digits, 16)
    ensures AtobValue(prefix + digits, base) == Some(Wrapped(Value(digits, 16)))
  {
    hide Value, AllDigits, AtobRest;
    PlainDigits(digits, 16);
    PlainHasNoPrefix(digits, 16);
    assert (prefix + digits)[2..] == digits;
  }

  lemma PlainHasNoPrefix(digits: string, base: nat)
    requires AtobDigits(digits, base)
    ensures !HexPrefix(digits) && AtobRest(digits, base) == AtobValue(digits, base)
  {
    assert |digits| > 1 ==> IsDigit(digits[1], 16);
  }

  /** With base 0 `0x` and `0X` announce base 16, `0t` and `0n` base 10, `0o` base 8, and digits with nothing in
      front, a zero included, are decimal. */
  lemma AtobDetects(prefix: string, digits: string, base: nat)
    requires
      || (base == 16 && (prefix == "0x" || prefix == "0X"))
      || (base == 10 && (prefix == "0t" || prefix == "0n" || prefix == ""))
      || (base == 8 && prefix == "0o")
    requires AllDigits(digits, base)
    ensures AtobAny(prefix + digits, 0) == Some(Wrapped(Value(digits, base)))
  {
    hide Value, AllDigits, AtobValue;
    DigitsWiden(digits, base);
    PlainDigits(digits, base);
    var p := prefix + digits;
    if prefix == "" {
      DecimalHasNoPrefix(digits);
      assert p == digits && p[0..] == p;
    } else if prefix == "0X" {
      AtobReadsPrefix(prefix, digits, 10);
      assert p[0..] == p;
    } else {
      assert p[2..] == digits;
    }
  }

  lemma DecimalHasNoPrefix(digits: string)
    requires AllDigits(digits, 10)
    ensures GetBase(digits) == Base(0, 10)
  {
    assert |digits| > 1 ==> IsDigit(digits[1], 10);
  }

  /** The `seg.offset` notation: the segment is shifted left by 16. */
  lemma AtobReadsSegment(a: string, b: string)
    requires AllDigits(a, 16) && AllDigits(b, 16)
    ensures AtobValue(a + "." + b, 16)
         == if |a| <= 19 then Some(Wrapped(Value(a, 16) * 0x1_0000 + Value(b, 16))) else None
  {
    hide First, AllDigits, Value, AtobValue, AtobRest, HexPrefix, Wrapped;
    PlainDigits(a, 16);
    PlainDigits(b, 16);
    SegmentParts(a, b);
    NoPrefix(a + "." + b, 16);
    SegmentRead(a + "." + b, |a|);
    WrapSum(Value(a, 16), Value(b, 16));
  }

  /** A second point is refused. */
  lemma TwoPointsRefused(a: string, b: string, c: string)
    requires AllDigits(a, 16)
    ensures AtobValue(a + "." + b + "." + c, 16) == None
  {
    hide AllDigits, AtobValue, Value;
    var p := a + "." + b + "." + c;
    FirstPoint(a, b + "." + c);
    assert p == a + "." + (b + "." + c);
    assert p[|a|+1..] == b + "." + c;
    assert (b + "." + c)[|b|] == '.';
    NoPrefix(p, 16);
  }

  lemma FirstPoint(a: string, rest: string)
    requires AllDigits(a, 16)
    ensures var p := a + "." + rest; !HexPrefix(p) && First(p, '.') == |a|
  {
    var p := a + "." + rest;
    assert forall i :: 0 <= i < |a| ==> p[i] == a[i] && IsDigit(a[i], 16) && a[i] != '.' && a[i] != 'x' && a[i] != 'X';
    assert p[|a|] == '.';
  }

  lemma NoPrefix(p: string, base: nat)
    requires !HexPrefix(p)
    ensures AtobValue(p, base) == AtobRest(p, base)
  {
    hide AtobRest;
  }

  lemma SegmentRead(p: string, q: nat)
    requires First(p, '.') == q < |p| && '.' !in p[q+1..]
    ensures var (v1, v2) := (AtobValue(p[..q], 16), AtobValue(p[q+1..], 16));
      AtobRest(p, 16) == if q > 19 || v1.None? || v2.None? then None
                         else Some(Wrapped(v1.value * 0x1_0000 + v2.value))
  {
    hide First, AtobDigits, Value, AtobValue;
  }

  lemma SegmentParts(a: string, b: string)
    requires AllDigits(a, 16) && AllDigits(b, 16)
    ensures var p := a + "." + b;
      && !HexPrefix(p) && First(p, '.') == |a| && p[..|a|] == a && p[|a|+1..] == b && '.' !in p[|a|+1..]
  {
    var p := a + "." + b;
    assert forall i :: 0 <= i < |a| ==> IsDigit(a[i], 16) && a[i] != '.' && a[i] != 'x' && a[i] != 'X';
    assert forall i :: 0 <= i < |b| ==> IsDigit(b[i], 16) && b[i] != '.';
    assert p[..|a|] == a && p[|a|+1..] == b && p[|a|] == '.';
  }

  lemma WrapSum(x: nat, y: nat)
    ensures Wrapped(Wrapped(x) * 0x1_0000 + Wrapped(y)) == Wrapped(x * 0x1_0000 + y)
  {
    var (qx, rx, qy, ry) := (x / WORD, x % WORD, y / WORD, y % WORD);
    assert x == WORD * qx + rx && y == WORD * qy + ry;
    WrapAdd(qx * 0x1_0000 + qy, rx * 0x1_0000 + ry);
  }

  /** `strtoul` recovers what `btoa` printed in any base. */
  lemma StrtoulReadsBtoa(v: nat, base: nat)
    requires v < WORD && 2 <= base <= 36
    ensures StrtoulValue(BtoaText(v, base), base) == v
  {
    var s := Numeral(v, base);
    NumeralValue(v, base);
    ReadsNumeral(0, 0, s, "", base);
    assert Repeat(' ', 0) + SignText(0) + s + "" == s;
  }

  /** ... and every 32-bit value printed as signed decimal behind blanks, the most negative one included. */
  lemma StrtoulReadsSigned(v: nat, n: nat)
    requires v < WORD
    ensures StrtoulValue(Repeat(' ', n) + BtoaText(v, -10), 10) == v
  {
    hide Value, Numeral, AllDigits, DigitsEnd, ReadPrefix;
    var neg := v >= SIGN_BIT;
    var m := if neg then WORD - v else v;
    var s := Numeral(m, 10);
    NumeralValue(m, 10);
    NumeralDigits(m, 10);
    ReadsNumeral(n, if neg then -1 else 0, s, "", 10);
    assert Repeat(' ', n) + SignText(if neg then -1 else 0) + s + "" == Repeat(' ', n) + BtoaText(v, -10);
  }

  lemma ZeroAndUpperX(digits: string)
    ensures AllDigits("0", 16) && Value("0", 16) == 0 && Ends("X" + digits, 16)
  {
    assert "0"[..0] == "";
  }

  lemma PrefixSkipped(prefix: string, digits: string, base: nat)
    requires AllDigits(digits, 16) && ((prefix == "0x" && base == 16) || (prefix == "0X" && base == 0))
    ensures StrtoulValue(prefix + digits, base) == Saturate(Value(digits, 16), false)
  {
    hide Value, AllDigits, DigitsEnd, Saturate;
    var s := prefix + digits;
    assert s[2..] == digits + "";
    DigitsFound(s, 2, digits, "", 16);
    PrefixRead(s, base);
  }

  lemma PrefixRead(s: string, base: nat)
    requires |s| >= 2 && s[0] == '0' && ((s[1] == 'x' && base == 16) || (s[1] == 'X' && base == 0))
    ensures ReadPrefix(s, base) == Prefix(2, 16, false)
  {
  }

  lemma ZeroThenUpperX(digits: string)
    ensures StrtoulValue("0X" + digits, 16) == 0
  {
    hide Value, AllDigits, DigitsEnd, ReadPrefix, Repeat, SignText;
    ZeroAndUpperX(digits);
    ReadsNumeral(0, 0, "0", "X" + digits, 16);
    NothingBefore("0" + ("X" + digits));
    assert "0" + ("X" + digits) == "0X" + digits;
    assert Repeat(' ', 0) + SignText(0) + "0" + ("X" + digits) == Repeat(' ', 0) + SignText(0) + ("0" + ("X" + digits));
  }

  lemma NothingBefore(s: string)
    ensures Repeat(' ', 0) + SignText(0) + s == s
  {
  }

  /** With base 16 only the lower-case prefix is skipped: `0x` digits are read, after `0X` the value is 0. */
  lemma HexPrefixCase(digits: string)
    requires AllDigits(digits, 16)
    ensures StrtoulValue("0x" + digits, 16) == Saturate(Value(digits, 16), false)
    ensures StrtoulValue("0X" + digits, 16) == 0
    ensures StrtoulValue("0X" + digits, 0) == Saturate(Value(digits, 16), false)
  {
    hide StrtoulValue;
    PrefixSkipped("0x", digits, 16);
    PrefixSkipped("0X", digits, 0);
    ZeroThenUpperX(digits);
  }

  /** Where `strtoul` has converted nothing, `endptr` is behind the blanks and the sign, so it is the
      start of the text only when the text starts with neither. */
  lemma EmptyNumeralEnd(n: nat, sign: int, tail: string, base: nat)
    requires 2 <= base <= 36 && Ends(tail, base) && (tail == "" || tail[0] !in " +-")
    ensures var s := Repeat(' ', n) + SignText(sign) + tail;
      StrtoulEnd(s, base) == n + |SignText(sign)| && StrtoulValue(s, base) == 0
  {
    ReadsNumeral(n, sign, "", tail, base);
    assert Repeat(' ', n) + SignText(sign) + "" + tail == Repeat(' ', n) + SignText(sign) + tail;
  }
}
