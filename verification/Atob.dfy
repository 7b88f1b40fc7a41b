/** atob.c: `btoa` prints a 32-bit value, `_atob` and `atob` read one back. */
module Atob {
  import opened Arithmetic
  import opened CStrings
  import opened Numerals
  import opened Wrappers

  // ---------- printing ----------

  /** What `btoa` writes: base -10 prints the value as a signed 32-bit integer. */
  function BtoaText(value: nat, base: int): (s: string)
    requires value < WORD && (base == -10 || 2 <= base <= 36)
    ensures s != "" && Text(s) && |s| <= 33
  {
    if base == -10 then
      if value >= SIGN_BIT then
        BtoaFits(WORD - value, 10);
        "-" + Numeral(WORD - value, 10)
      else
        BtoaFits(value, 10);
        Numeral(value, 10)
    else
      BtoaFits(value, base);
      Numeral(value, base)
  }

  lemma BtoaFits(v: nat, base: nat)
    requires v < WORD && 2 <= base <= 36
    ensures |Numeral(v, base)| <= 32 && Text(Numeral(v, base))
  {
    assert Power(2, 32) == WORD by {
      assert Power(2, 8) == 0x100;
      PowerAdd(2, 8, 8);
      PowerAdd(2, 16, 16);
    }
    NumeralLength(v, base, 2, 32);
    assert !IsDigit(NUL, base);
  }

  lemma {:induction false} PowerAdd(b: nat, m: nat, n: nat)
    ensures Power(b, m + n) == Power(b, m) * Power(b, n)
  {
    if m > 0 {
      PowerAdd(b, m - 1, n);
      var x, y := Power(b, m - 1), Power(b, n);
      assert b * (x * y) == (b * x) * y;
    }
  }

  function Reversed(s: string): (r: string)
    ensures |r| == |s| && forall k :: 0 <= k < |s| ==> r[k] == s[|s|-1-k]
  {
    if s == "" then "" else Reversed(s[1..]) + [s[0]]
  }

  /** `btoa`: digits low to high into a local buffer, a sign behind them, then reversed into `dst`. */
  method Btoa(dst: array<char>, d: nat, value0: nat, base0: int)
    requires value0 < WORD && (base0 == -10 || 2 <= base0 <= 36)
    requires d + |BtoaText(value0, base0)| < dst.Length
    modifies dst
    ensures Holds(dst, d, BtoaText(value0, base0))
    ensures OnlyWithin(dst, d, d + |BtoaText(value0, base0)| + 1)
  {
    hide Numeral, Reversed, AllDigits;
    ghost var text := BtoaText(value0, base0);
    var value, base := value0, base0;
    if value == 0 {
      dst[d] := '0';
      dst[d+1] := NUL;
      NumeralLeads(0, if base == -10 then 10 else base);
      assert dst[d..d+1] == "0";
      return;
    }
    var neg := false;
    if base == -10 {
      base := 10;
      if value >= SIGN_BIT {
        value := WORD - value;
        neg := true;
      }
    }
    var buf := new char[34];
    FillDigits(buf, value, base);
    ghost var digits := Reversed(Numeral(value, base));
    BtoaFits(value, base);
    ReversedTwice(Numeral(value, base));
    ReversedGrows(digits, '-');
    if neg {
      Strcat(buf, 0, "-", digits);
      digits := digits + "-";
    }
    CopyReversed(dst, d, buf, digits);
  }

  /** The reversal of the local buffer into the destination. */
  method CopyReversed(dst: array<char>, d: nat, buf: array<char>, ghost digits: string)
    requires dst != buf && Holds(buf, 0, digits) && d + |digits| < dst.Length
    modifies dst
    ensures Holds(dst, d, Reversed(digits)) && OnlyWithin(dst, d, d + |digits| + 1)
  {
    ghost var text := Reversed(digits);
    var n := Strlen(buf, 0, digits);
    var i := 0;
    var j: int := n;
    j := j - 1;
    while j >= 0
      invariant 0 <= i <= n == |digits| && j == n - 1 - i && Holds(buf, 0, digits)
      invariant dst[d..d+i] == text[..i]
      invariant OnlyWithin(dst, d, d + i)
    {
      assert buf[j] == buf[0..n][j] == text[i];
      dst[d+i] := buf[j];
      i, j := i + 1, j - 1;
    }
    dst[d+i] := NUL;
    assert dst[d..d+i] == text;
  }

  /** The digit loop: the numeral of `value`, lowest digit first. */
  method FillDigits(buf: array<char>, value0: nat, base: nat)
    requires 0 < value0 < WORD && 2 <= base <= 36 && buf.Length == 34
    modifies buf
    ensures Holds(buf, 0, Reversed(Numeral(value0, base)))
  {
    hide Numeral, Reversed, Quot, Rem;
    var value, i := value0, 0;
    BtoaFits(value0, base);
    ghost var text := Numeral(value0, base);
    assert buf[..0] == "";
    while value != 0
      invariant i <= |text| && Text(buf[..i])
      invariant text == (if value == 0 then "" else Numeral(value, base)) + Reversed(buf[..i])
      decreases value
    {
      var rem := Rem(value, base);
      ghost var low := buf[..i];
      NumeralStep(value, base, low, text);
      value := Quot(value, base);
      var digit;
      if rem <= 9 {
        digit := '0' + rem as char;
      } else {
        digit := 'a' + (rem - 10) as char;
      }
      assert digit == DigitChar(rem);
      buf[i] := digit;
      i := i + 1;
      assert buf[..i] == low + [digit];
    }
    buf[i] := NUL;
    assert buf[0..i] == Reversed(text);
  }

  /** One turn of the digit loop moves the lowest digit of what is left in front of those written. */
  lemma NumeralStep(value: nat, base: nat, low: string, text: string)
    requires 2 <= base <= 36 && 0 < value
    requires text == Numeral(value, base) + Reversed(low)
    ensures |low| < |text| && Quot(value, base) < value
    ensures text == (if Quot(value, base) == 0 then "" else Numeral(Quot(value, base), base))
                  + Reversed(low + [DigitChar(Rem(value, base))])
  {
    hide Reversed, Quot, Rem;
    var c := DigitChar(Rem(value, base));
    ReversedGrows(low, c);
    QuotRem(value, base);
    if value >= base {
      assert text == Numeral(Quot(value, base), base) + ([c] + Reversed(low));
    }
  }

  lemma ReversedTwice(s: string)
    ensures Reversed(Reversed(s)) == s
  {
  }

  lemma ReversedGrows(s: string, c: char)
    ensures Reversed(s + [c]) == [c] + Reversed(s)
  {
  }

  // ---------- reading ----------

  function First(s: string, c: char): (i: nat)
    ensures i <= |s| && c !in s[..i] && (i < |s| ==> s[i] == c)
  {
    if s == "" || s[0] == c then 0 else
      var i := 1 + First(s[1..], c);
      assert s[..i] == [s[0]] + s[1..][..i-1];
      i
  }

  method Strchr(s: string, c: char) returns (i: nat)
    requires Text(s) && c != NUL
    ensures i == First(s, c)
  {
    i := 0;
    while At(s, i) != NUL && At(s, i) != c
      invariant i <= |s| && c !in s[..i]
      decreases |s| - i
    {
      i := i + 1;
    }
    assert First(s, c) >= i;
  }

  /** `_atob` knows the digits up to `f`. */
  predicate AtobDigits(s: string, base: nat) {
    AllDigits(s, base) && AllDigits(s, 16)
  }

  predicate HexPrefix(p: string) {
    At(p, 0) == '0' && (At(p, 1) == 'x' || At(p, 1) == 'X')
  }

  /** The value `_atob` reads, if it accepts the text. Under base 16 `seg.offset` is read as a
      segment shifted left by 16 plus an offset. */
  function AtobValue(p: string, base: nat): (r: Option<nat>)
    ensures r.Some? ==> r.value < WORD
    decreases |p|, 1
  {
    if HexPrefix(p) then AtobRest(p[2..], 16) else AtobRest(p, base)
  }

  function AtobRest(p: string, base: nat): (r: Option<nat>)
    ensures r.Some? ==> r.value < WORD
    decreases |p|, 0
  {
    var q := First(p, '.');
    if base == 16 && q < |p| then
      if q > 19 || '.' in p[q+1..] then None else
        match AtobValue(p[..q], 16)
        case None => None
        case Some(v1) =>
          match AtobValue(p[q+1..], 16)
          case None => None
          case Some(v2) => Some(Wrapped(v1 * 0x1_0000 + v2))
    else if AtobDigits(p, base) then Some(Wrapped(Value(p, base)))
    else None
  }

  method AtobInto(p0: string, base0: nat) returns (r: Option<nat>)
    requires Text(p0)
    ensures r == AtobValue(p0, base0)
    decreases |p0|, 2
  {
    hide AtobRest;
    var p, base := p0, base0;
    if At(p, 0) == '0' && (At(p, 1) == 'x' || At(p, 1) == 'X') {
      base := 16;
      p := p[2..];
    }
    r := AtobPlain(p, base);
  }

  /** `_atob` after the prefix. */
  method AtobPlain(p: string, base: nat) returns (r: Option<nat>)
    requires Text(p)
    ensures r == AtobRest(p, base)
    decreases |p|, 1
  {
    hide First, AtobDigits, Value, AtobValue;
    if base == 16 {
      var q := Strchr(p, '.');
      if q < |p| {
        if q > 20 - 1 {
          return None;
        }
        var v1 := AtobInto(p[..q], 16);
        if v1.None? {
          return None;
        }
        var second := Strchr(p[q+1..], '.');
        if second < |p[q+1..]| {
          return None;
        }
        var v2 := AtobInto(p[q+1..], 16);
        if v2.None? {
          return None;
        }
        WrapStep(v1.value, 0x1_0000, v2.value);
        return Some(Wrapped(Wrapped(v1.value * 0x1_0000) + v2.value));
      }
    }
    r := ReadDigits(p, base);
  }

  /** The digit loop of `_atob`. */
  method ReadDigits(p: string, base: nat) returns (r: Option<nat>)
    requires Text(p)
    ensures r == if AtobDigits(p, base) then Some(Wrapped(Value(p, base))) else None
  {
    var value, i := 0, 0;
    while At(p, i) != NUL
      invariant i <= |p| && AtobDigits(p[..i], base) && value == Wrapped(Value(p[..i], base))
      decreases |p| - i
    {
      var c := At(p, i);
      var digit;
      if '0' <= c <= '9' {
        digit := c as int - '0' as int;
      } else if 'a' <= c <= 'f' {
        digit := c as int - 'a' as int + 10;
      } else if 'A' <= c <= 'F' {
        digit := c as int - 'A' as int + 10;
      } else {
        return None;
      }
      if digit >= base {
        return None;
      }
      assert p[..i+1][..i] == p[..i];
      WrapStep(Value(p[..i], base), base, digit);
      value := Wrapped(value * base);
      value := Wrapped(value + digit);
      i := i + 1;
    }
    assert p[..i] == p;
    return Some(value);
  }

  datatype Base = Base(skip: nat, base: nat)

  /** `_getbase`: `0x` is 16, `0t` and `0n` are 10, `0o` is 8, anything else is decimal as it stands. */
  function GetBase(p: string): (b: Base)
    ensures b.skip <= |p|
  {
    if At(p, 0) == '0' then
      match At(p, 1)
      case 'x' => Base(2, 16)
      case 't' => Base(2, 10)
      case 'n' => Base(2, 10)
      case 'o' => Base(2, 8)
      case _ => Base(0, 10)
    else Base(0, 10)
  }

  /** What `atob` reads: with base 0 the base is detected first. */
  function AtobAny(p: string, base: nat): Option<nat> {
    if base != 0 then AtobValue(p, base) else AtobValue(p[GetBase(p).skip..], GetBase(p).base)
  }

  method Atob(p: string, base: nat) returns (r: Option<nat>)
    requires Text(p)
    ensures r == AtobAny(p, base)
  {
    if base == 0 {
      var b := GetBase(p);
      r := AtobInto(p[b.skip..], b.base);
    } else {
      r := AtobInto(p, base);
    }
  }
}
