/** strtoul.c: text to unsigned long (32 bits), with base detection, sign and saturation
    (section 7.22.1.4 of ISO/IEC 9899:2011). */
module Strtoul {
  import opened Arithmetic
  import opened CStrings
  import opened Numerals

  const ULONG_MAX: nat := WORD - 1

  function SkipBlanks(s: string, i: nat): (r: nat)
    requires i <= |s|
    ensures i <= r <= |s| && (forall k :: i <= k < r ==> s[k] == ' ') && (r < |s| ==> s[r] != ' ')
    decreases |s| - i
  {
    if i < |s| && s[i] == ' ' then SkipBlanks(s, i + 1) else i
  }

  /** Where the digits start, in which base they are read, and whether a minus sign precedes them. */
  datatype Prefix = Prefix(start: nat, base: nat, negative: bool)

  /** With an explicit base 16 only a lower-case `0x` is skipped; base 0 takes either case. */
  function Detect(s: string, i: nat, base: nat, negative: bool): (p: Prefix)
    requires i <= |s|
    ensures i <= p.start <= |s| && (base == 0 || 2 <= base <= 36 ==> 2 <= p.base <= 36)
  {
    if base == 0 then
      if At(s, i) == '0' then
        if At(s, i + 1) == 'x' || At(s, i + 1) == 'X' then Prefix(i + 2, 16, negative) else Prefix(i + 1, 8, negative)
      else Prefix(i, 10, negative)
    else if base == 16 && At(s, i) == '0' then
      if At(s, i + 1) == 'x' then Prefix(i + 2, 16, negative) else Prefix(i + 1, 16, negative)
    else Prefix(i, base, negative)
  }

  function ReadPrefix(s: string, base: nat): (p: Prefix)
    ensures p.start <= |s| && (base == 0 || 2 <= base <= 36 ==> 2 <= p.base <= 36)
  {
    var i := SkipBlanks(s, 0);
    if At(s, i) == '+' || At(s, i) == '-' then Detect(s, i + 1, base, s[i] == '-') else Detect(s, i, base, false)
  }

  /** Saturation of an out-of-range value; otherwise the value, negated modulo 2^32 under a minus sign. */
  function Saturate(v: nat, negative: bool): (r: nat)
    ensures r <= ULONG_MAX
  {
    if v > ULONG_MAX then ULONG_MAX else if negative then (WORD - v) % WORD else v
  }

  /** Where the conversion of a text stops. */
  function StrtoulEnd(s: string, base: nat): (end: nat)
    ensures end <= |s|
  {
    var p := ReadPrefix(s, base);
    DigitsEnd(s, p.start, p.base)
  }

  /** The value `strtoul` returns for a text. */
  function StrtoulValue(s: string, base: nat): nat
    requires base == 0 || 2 <= base <= 36
  {
    var p := ReadPrefix(s, base);
    Saturate(Value(s[p.start..DigitsEnd(s, p.start, p.base)], p.base), p.negative)
  }

  method Strtoul(s: string, base0: nat) returns (result: nat, end: nat)
    requires Text(s) && (base0 == 0 || 2 <= base0 <= 36)
    ensures result == StrtoulValue(s, base0) && end == StrtoulEnd(s, base0)
  {
    hide DigitsEnd, Value, AllDigits;
    var nptr, negative, base := 0, false, base0;
    while At(s, nptr) != NUL && At(s, nptr) == ' '
      invariant nptr <= |s| && SkipBlanks(s, nptr) == SkipBlanks(s, 0)
      decreases |s| - nptr
    {
      nptr := nptr + 1;
    }
    var c := At(s, nptr);
    if c == '+' || c == '-' {
      negative := c == '-';
      nptr := nptr + 1;
    }
    if base == 0 {
      base := 10;
      if At(s, nptr) == '0' {
        base := 8;
        nptr := nptr + 1;
        c := At(s, nptr);
        if c == 'x' || c == 'X' {
          base := 16;
          nptr := nptr + 1;
        }
      }
    } else if base == 16 && At(s, nptr) == '0' {
      nptr := nptr + 1;
      // the source assigns the comparison to c: c is 0 or 1 and never 'X'
      var isLower := At(s, nptr) == 'x';
      if isLower {
        nptr := nptr + 1;
      }
    }
    assert Prefix(nptr, base, negative) == ReadPrefix(s, base0);
    var overflow;
    result, overflow, end := Convert(s, nptr, base);
    if negative && !overflow {
      result := (WORD - result) % WORD;
    }
    if overflow {
      result := ULONG_MAX;
    }
  }

  /** A run of digits goes on with a digit and ends before anything else. */
  lemma DigitsStep(s: string, i: nat, base: nat)
    requires i <= |s|
    ensures DigitsEnd(s, i, base) == if i < |s| && IsDigit(s[i], base) then DigitsEnd(s, i + 1, base) else i
  {
  }

  /** The conversion loop. */
  method Convert(s: string, start: nat, base: nat) returns (result: nat, overflow: bool, nptr: nat)
    requires Text(s) && start <= |s| && 2 <= base <= 36
    ensures nptr == DigitsEnd(s, start, base)
    ensures overflow <==> Value(s[start..nptr], base) > ULONG_MAX
    ensures !overflow ==> result == Value(s[start..nptr], base)
  {
    hide Value, DigitsEnd, AllDigits;
    result, overflow, nptr := 0, false, start;
    var limit := ULONG_MAX / base;
    ValueNone(base);
    DigitsStep(s, start, base);
    assert s[start..start] == "";
    while At(s, nptr) != NUL
      invariant start <= nptr <= |s| && DigitsEnd(s, nptr, base) == DigitsEnd(s, start, base)
      invariant !overflow ==> result == Value(s[start..nptr], base) <= ULONG_MAX
      invariant overflow ==> Value(s[start..nptr], base) > ULONG_MAX
      decreases |s| - nptr
    {
      DigitsStep(s, nptr, base);
      var c := At(s, nptr);
      var digit;
      if '0' <= c <= '9' {
        digit := c as int - '0' as int;
      } else if ('A' <= c <= 'Z') || ('a' <= c <= 'z') {
        digit := c as int - (if 'A' <= c <= 'Z' then 'A' as int else 'a' as int) + 10;
      } else {
        break;
      }
      if digit < 0 || digit >= base {
        break;
      }
      ValueGrows(s, start, nptr, base);
      result, overflow := AddDigit(result, overflow, limit, base, digit, Value(s[start..nptr], base));
      nptr := nptr + 1;
    }
  }

  /** One turn of it: `v` is the mathematical value of the digits so far. */
  method AddDigit(result0: nat, overflow0: bool, limit: nat, base: nat, digit: nat, ghost v: nat)
    returns (result: nat, overflow: bool)
    requires 2 <= base && digit < base && limit == ULONG_MAX / base
    requires overflow0 <==> v > ULONG_MAX
    requires !overflow0 ==> result0 == v
    ensures overflow <==> v * base + digit > ULONG_MAX
    ensures !overflow ==> result == v * base + digit
  {
    OverflowExact(v, base, digit);
    result, overflow := result0, overflow0;
    if result > limit {
      overflow := true;
    }
    if !overflow {
      result := base * result;
      if digit > ULONG_MAX - result {
        overflow := true;
      } else {
        result := result + digit;
      }
    }
  }

  /** The two-stage check has no false alarm and no miss. */
  lemma OverflowExact(v: nat, base: nat, digit: nat)
    requires 2 <= base && digit < base
    ensures v * base + digit >= v
    ensures v > ULONG_MAX / base ==> v * base + digit > ULONG_MAX
    ensures v <= ULONG_MAX / base ==> 0 <= base * v <= ULONG_MAX
    ensures v <= ULONG_MAX / base ==> (digit > ULONG_MAX - base * v <==> v * base + digit > ULONG_MAX)
  {
    var limit, rest := ULONG_MAX / base, ULONG_MAX % base;
    assert ULONG_MAX == limit * base + rest;
    assert v * base == base * v >= v by { TimesMonotone(1, base, v); }
    if v > limit {
      TimesMonotone(limit + 1, v, base);
      assert (limit + 1) * base == limit * base + base;
    } else {
      TimesMonotone(v, limit, base);
    }
  }

  // ---------- what a caller gets ----------

  function SignText(sign: int): string {
    if sign < 0 then "-" else if sign > 0 then "+" else ""
  }

  /** Any blanks, any sign, any digit string of an explicit base: the value is read exactly or
      saturates, and `endptr` is just behind the digits. Under base 16 a lone `0` before `x` is
      taken for a prefix. */
  lemma ReadsNumeral(n: nat, sign: int, digits: string, tail: string, base: nat)
    requires 2 <= base <= 36 && AllDigits(digits, base) && Ends(tail, base)
    requires digits != "" || tail == "" || tail[0] !in " +-"
    requires !(base == 16 && digits == "0" && tail != "" && tail[0] == 'x')
    ensures var s := Repeat(' ', n) + SignText(sign) + digits + tail;
      var p := ReadPrefix(s, base);
      var end := DigitsEnd(s, p.start, p.base);
      && end == |s| - |tail|
      && p.base == base && p.negative == (sign < 0)
      && Value(s[p.start..end], base) == Value(digits, base)
  {
    hide ReadPrefix, Detect, DigitsEnd, Value, AllDigits;
    var rest := digits + tail;
    assert rest != "" ==> rest[0] !in " +-" by {
      if digits != "" { FirstDigit(digits, base); }
    }
    var s := Repeat(' ', n) + SignText(sign) + digits + tail;
    assert s == Repeat(' ', n) + SignText(sign) + rest;
    PrefixFound(n, sign, rest, base);
    DetectDigits(s, n + |SignText(sign)|, digits, tail, base, sign < 0);
  }

  lemma FirstDigit(digits: string, base: nat)
    requires digits != "" && base <= 36 && AllDigits(digits, base)
    ensures digits[0] !in " +-"
  {
  }

  lemma PrefixFound(n: nat, sign: int, rest: string, base: nat)
    requires rest == "" || rest[0] !in " +-"
    ensures var s, i := Repeat(' ', n) + SignText(sign) + rest, n + |SignText(sign)|;
      s[i..] == rest && ReadPrefix(s, base) == Detect(s, i, base, sign < 0)
  {
    var s := Repeat(' ', n) + SignText(sign) + rest;
    assert forall k :: 0 <= k < n ==> s[k] == ' ';
    if n < |s| {
      assert s[n] == (SignText(sign) + rest)[0];
      assert s[n] != ' ';
    }
    assert SkipBlanks(s, 0) == n;
  }

  lemma DetectDigits(s: string, i: nat, digits: string, tail: string, base: nat, negative: bool)
    requires i <= |s| && s[i..] == digits + tail
    requires 2 <= base <= 36 && AllDigits(digits, base) && Ends(tail, base)
    requires !(base == 16 && digits == "0" && tail != "" && tail[0] == 'x')
    ensures var p := Detect(s, i, base, negative);
      var end := DigitsEnd(s, p.start, p.base);
      && end == |s| - |tail| && p.base == base && p.negative == negative
      && Value(s[p.start..end], base) == Value(digits, base)
  {
    hide Value, DigitsEnd;
    DigitsFound(s, i, digits, tail, base);
    if base == 16 && digits != "" && digits[0] == '0' {
      SkipZero(s, i, digits, tail);
      DigitsFound(s, i + 1, digits[1..], tail, base);
      LeadingZero(digits, base);
    } else if base == 16 && i < |s| {
      assert s[i] == s[i..][0];
      assert IsDigit('0', 16);
    }
  }

  lemma SkipZero(s: string, i: nat, digits: string, tail: string)
    requires i <= |s| && s[i..] == digits + tail && AllDigits(digits, 16) && digits != "" && digits[0] == '0'
    requires !(digits == "0" && tail != "" && tail[0] == 'x')
    ensures i < |s| && At(s, i) == '0' && At(s, i + 1) != 'x' && s[i+1..] == digits[1..] + tail
  {
    assert s[i] == s[i..][0];
    if i + 1 < |s| {
      assert s[i+1] == s[i..][1];
    }
    assert s[i+1..] == s[i..][1..];
  }

  // ---------- every base, with and without a prefix ----------

  /** In front of digits of `base`, `prefix` makes `strtoul` read them in that base when it is asked for `asked`. */
  predicate Announces(asked: nat, prefix: string, base: nat) {
    || (asked == 0 && (prefix == "0x" || prefix == "0X") && base == 16)
    || (asked == 0 && prefix == "0" && base == 8)
    || (asked == 0 && prefix == "" && base == 10)
    || (asked == 16 && prefix == "0x" && base == 16)
    || (2 <= asked <= 36 && prefix == "" && base == asked)
  }

  /** The text is not one that announces another base: decimal digits asked for with base 0 have no zero in
      front, and no `x` stands behind a zero that would make it a prefix. */
  predicate Unambiguous(asked: nat, prefix: string, digits: string, tail: string) {
    && (prefix == "" && digits == "" && tail != "" ==> tail[0] !in " +-")
    && (asked == 0 && prefix == "" && digits != "" ==> digits[0] != '0')
    && (asked == 0 && prefix == "0" && digits == "" && tail != "" ==> tail[0] !in "xX")
    && (asked == 16 && prefix == "" && digits == "0" && tail != "" ==> tail[0] != 'x')
  }

  lemma AnnouncedDigits(s: string, i: nat, prefix: string, digits: string, tail: string, asked: nat, base: nat,
                        negative: bool)
    requires i <= |s| && s[i..] == prefix + digits + tail && Announces(asked, prefix, base)
    requires AllDigits(digits, base) && Ends(tail, base) && Unambiguous(asked, prefix, digits, tail)
    ensures var p := Detect(s, i, asked, negative);
      var end := DigitsEnd(s, p.start, p.base);
      && end == |s| - |tail| && p.negative == negative
      && Value(s[p.start..end], p.base) == Value(digits, base)
  {
    hide Value, DigitsEnd, AllDigits, Ends, IsDigit, Detect, At, Unambiguous;
    if prefix == "" && asked != 0 {
      PlainDigits(s, i, digits, tail, base, negative);
    } else {
      PrefixDetected(s, i, prefix, digits, tail, asked, base, negative);
      PrefixPassed(s, i, prefix, digits, tail);
      NumeralFound(s, i + |prefix|, digits, tail, base);
    }
  }

  lemma PlainDigits(s: string, i: nat, digits: string, tail: string, base: nat, negative: bool)
    requires i <= |s| && s[i..] == "" + digits + tail && 2 <= base <= 36
    requires AllDigits(digits, base) && Ends(tail, base) && Unambiguous(base, "", digits, tail)
    ensures var p := Detect(s, i, base, negative);
      var end := DigitsEnd(s, p.start, p.base);
      && end == |s| - |tail| && p.base == base && p.negative == negative
      && Value(s[p.start..end], base) == Value(digits, base)
  {
    hide Value, DigitsEnd, AllDigits, Ends, IsDigit, Detect, At;
    assert "" + digits == digits;
    DetectDigits(s, i, digits, tail, base, negative);
  }

  lemma NumeralFound(s: string, i: nat, digits: string, tail: string, base: nat)
    requires i <= |s| && s[i..] == digits + tail && AllDigits(digits, base) && Ends(tail, base)
    ensures var end := DigitsEnd(s, i, base);
      i <= end && end == |s| - |tail| && Value(s[i..end], base) == Value(digits, base)
  {
    hide Value, DigitsEnd, AllDigits, Ends;
    DigitsFound(s, i, digits, tail, base);
  }

  lemma PrefixPassed(s: string, i: nat, prefix: string, digits: string, tail: string)
    requires i <= |s| && s[i..] == prefix + digits + tail
    ensures i + |prefix| <= |s| && s[i+|prefix|..] == digits + tail
  {
    assert s[i+|prefix|..] == s[i..][|prefix|..] == digits + tail;
  }

  lemma PrefixDetected(s: string, i: nat, prefix: string, digits: string, tail: string, asked: nat, base: nat,
                       negative: bool)
    requires i <= |s| && s[i..] == prefix + digits + tail && Announces(asked, prefix, base)
    requires AllDigits(digits, base) && Ends(tail, base) && Unambiguous(asked, prefix, digits, tail)
    requires prefix != "" || asked == 0
    ensures Detect(s, i, asked, negative) == Prefix(i + |prefix|, base, negative)
  {
    var rest := prefix + digits + tail;
    assert rest != "" ==> s[i] == s[i..][0] == rest[0];
    assert |rest| > 1 ==> s[i+1] == s[i..][1] == rest[1];
    assert digits != "" ==> IsDigit(digits[0], base);
  }

  /** Behind any blanks and sign, and a prefix that announces the base, digits are read in that base up to the
      tail. A value above 4294967295 is returned as 4294967295 under either sign; any other is returned as it
      is, or under a minus sign as 4294967296 minus it, with 0 for 0. */
  lemma ReadsAnnounced(n: nat, sign: int, prefix: string, digits: string, tail: string, asked: nat, base: nat)
    requires Announces(asked, prefix, base) && AllDigits(digits, base) && Ends(tail, base)
    requires Unambiguous(asked, prefix, digits, tail)
    ensures var s := Repeat(' ', n) + SignText(sign) + prefix + digits + tail;
      && StrtoulEnd(s, asked) == |s| - |tail|
      && var v := Value(digits, base);
      StrtoulValue(s, asked)
      == if v > 4294967295 then 4294967295 else if sign < 0 && v != 0 then 4294967296 - v else v
  {
    hide ReadPrefix, Detect, DigitsEnd, Value, AllDigits, Unambiguous, Announces, Ends, Repeat;
    var rest := prefix + digits + tail;
    RestStarts(prefix, digits, tail, asked, base);
    var s := Repeat(' ', n) + SignText(sign) + prefix + digits + tail;
    assert s == Repeat(' ', n) + SignText(sign) + rest;
    PrefixFound(n, sign, rest, asked);
    AnnouncedDigits(s, n + |SignText(sign)|, prefix, digits, tail, asked, base, sign < 0);
  }

  lemma RestStarts(prefix: string, digits: string, tail: string, asked: nat, base: nat)
    requires Announces(asked, prefix, base) && AllDigits(digits, base) && Unambiguous(asked, prefix, digits, tail)
    ensures var rest := prefix + digits + tail; rest == "" || rest[0] !in " +-"
  {
    if prefix == "" && digits != "" {
      FirstDigit(digits, base);
    }
  }
}
