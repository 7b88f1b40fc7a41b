/** The numeral printers and parsers of sscanf.c. The printers write at most `len` characters.

    The source generates one printer and one parser per base (10 and 16) and signedness; here the
    base is a parameter. */
module BoundedNumerals {
  import opened Arithmetic
  import opened CStrings
  import opened Numerals
  import opened Wrappers

  predicate IsSpace(c: char): (r: bool)
    ensures r <==> c as int == 32 || 9 <= c as int <= 13
  {
    c == ' ' || c == '\t' || c as int == 11 || c as int == 12 || c == '\r' || c == '\n'
  }

  function SkipSpaces(s: string, i: nat): (r: nat)
    requires i <= |s|
    ensures i <= r <= |s| && (forall k :: i <= k < r ==> IsSpace(s[k])) && (r < |s| ==> !IsSpace(s[r]))
    decreases |s| - i
  {
    if i < |s| && IsSpace(s[i]) then SkipSpaces(s, i + 1) else i
  }

  // ---------- printing ----------

  function Cased(s: string, upper: bool): (r: string)
    ensures |r| == |s|
  {
    if upper then Upper(s) else s
  }

  function Magnitude(val: int): nat {
    if val < 0 then -val else val
  }

  /** The unpadded numeral. */
  function Plain(val: int, base: nat, upper: bool): (s: string)
    requires 2 <= base <= 36
  {
    (if val < 0 then "-" else "") + Cased(Numeral(Magnitude(val), base), upper)
  }

  /** Padded on the left to `padlen` characters, a minus sign after the padding. */
  function Padded(val: int, base: nat, upper: bool, padchar: char, padlen: nat): (s: string)
    requires 2 <= base <= 36
  {
    var plain := Plain(val, base, upper);
    Repeat(padchar, PadWidth(padlen, |plain|)) + plain
  }

  function Min(a: nat, b: nat): nat {
    if a < b then a else b
  }

  /** The text `full` cut to `len` characters is stored at `str`, and `end` is behind it. */
  twostate predicate Written(a: array<char>, str: nat, full: string, len: nat, end: nat)
    reads a
  {
    && end == str + Min(len, |full|) <= a.Length
    && a[str..end] == full[..Min(len, |full|)]
    && OnlyWithin(a, str, end)
  }

  /** The digit loop: lowest digit first, at least one. */
  method Digits(buf: array<nat>, val0: nat, base: nat) returns (cnt: nat)
    requires val0 < WORD && 2 <= base <= 36 && buf.Length >= |Numeral(val0, base)|
    modifies buf
    ensures cnt == |Numeral(val0, base)|
    ensures forall k :: 0 <= k < cnt ==> buf[k] < base && Numeral(val0, base)[cnt-1-k] == DigitChar(buf[k])
  {
    hide Quot, Rem;
    ghost var text := Numeral(val0, base);
    var val := val0;
    cnt := 0;
    ghost var high := text;
    while true
      invariant cnt < |text| && high == Numeral(val, base) && |high| + cnt == |text| && text[..|high|] == high
      invariant forall k :: 0 <= k < cnt ==> buf[k] < base && text[|text|-1-k] == DigitChar(buf[k])
      decreases val
    {
      QuotRem(val, base);
      buf[cnt] := Rem(val, base);
      cnt := cnt + 1;
      val := Quot(val, base);
      if val == 0 {
        break;
      }
      high := Numeral(val, base);
    }
  }

  /** The last loop of every printer: the digits from the highest down, while `len` lasts. */
  method EmitDigits(buf: array<nat>, cnt0: nat, base: nat, upper: bool, len0: nat, a: array<char>, str0: nat,
                    ghost text: string) returns (str: nat)
    requires cnt0 == |text| <= buf.Length && base <= 36
    requires forall k :: 0 <= k < cnt0 ==> buf[k] < base && text[cnt0-1-k] == DigitChar(buf[k])
    requires str0 + Min(len0, cnt0) <= a.Length
    modifies a
    ensures Written(a, str0, Cased(text, upper), len0, str)
  {
    var letterA := if upper then 'A' else 'a';
    var cnt, len := cnt0, len0;
    ghost var out := Cased(text, upper);
    str := str0;
    while cnt > 0 && len > 0
      invariant 0 <= cnt <= cnt0 && 0 <= len && str == str0 + (cnt0 - cnt) && len + (cnt0 - cnt) == len0
      invariant a[str0..str] == out[..str-str0]
      invariant OnlyWithin(a, str0, str)
    {
      cnt, len := cnt - 1, len - 1;
      var c;
      if buf[cnt] < 10 {
        c := buf[cnt] as char + '0';
      } else {
        c := (buf[cnt] - 10) as char + letterA;
      }
      assert c == out[cnt0-1-cnt];
      a[str] := c;
      str := str + 1;
    }
  }

  function PadWidth(padlen: nat, used: nat): nat {
    if padlen > used then padlen - used else 0
  }

  /** The padding, cut to `len`; what is left of `len` comes back. */
  method EmitPadding(a: array<char>, str0: nat, padchar: char, padlen0: nat, used: nat, len0: nat)
    returns (str: nat, len: nat)
    requires str0 + Min(len0, PadWidth(padlen0, used)) <= a.Length
    modifies a
    ensures Written(a, str0, Repeat(padchar, PadWidth(padlen0, used)), len0, str) && len == len0 - (str - str0)
  {
    str, len := str0, len0;
    var padlen := padlen0;
    if padlen > used {
      padlen := padlen - used;
      padlen := if padlen < len then padlen else len;
      for k := 0 to padlen
        invariant a[str..str+k] == Repeat(padchar, k) && OnlyWithin(a, str, str + k)
      {
        a[str+k] := padchar;
      }
      str := str + padlen;
      len := len - padlen;
    }
  }

  /** Writing `s` and then `t`, each cut to the room left, is writing `s + t` cut to the room. */
  lemma JoinWrites(s: string, t: string, len: nat)
    ensures var w := Min(len, |s|);
      && w + Min(len - w, |t|) == Min(len, |s + t|)
      && s[..w] + t[..Min(len - w, |t|)] == (s + t)[..Min(len, |s + t|)]
  {
  }

  /** The padding and the sign behind it, cut to `len0`. */
  method EmitFront(a: array<char>, str0: nat, padchar: char, padlen: nat, isneg: nat, cnt: nat, len0: nat,
                   ghost sign: string) returns (str: nat, len: nat)
    requires sign == (if isneg > 0 then "-" else "") && isneg <= 1
    requires str0 + Min(len0, PadWidth(padlen, isneg + cnt) + isneg) <= a.Length
    modifies a
    ensures Written(a, str0, Repeat(padchar, PadWidth(padlen, isneg + cnt)) + sign, len0, str)
    ensures len == len0 - (str - str0)
  {
    str, len := EmitPadding(a, str0, padchar, padlen, isneg + cnt, len0);
    ghost var first := a[str0..str];
    if isneg > 0 && len > 0 {
      a[str] := '-';
      str := str + 1;
      len := len - 1;
    }
    assert a[str0..str] == first + sign[..str-str0-|first|];
  }

  /** Padding, sign and digits, cut to `len0`: the common end of the printers. */
  method EmitAll(a: array<char>, str0: nat, padchar: char, padlen: nat, isneg: nat, len0: nat, ghost sign: string,
                 buf: array<nat>, cnt: nat, base: nat, upper: bool, ghost text: string) returns (str: nat)
    requires sign == (if isneg > 0 then "-" else "") && isneg <= 1
    requires cnt == |text| <= buf.Length && base <= 36
    requires forall k :: 0 <= k < cnt ==> buf[k] < base && text[cnt-1-k] == DigitChar(buf[k])
    requires str0 + Min(len0, PadWidth(padlen, isneg + cnt) + isneg + cnt) <= a.Length
    modifies a
    ensures Written(a, str0, Repeat(padchar, PadWidth(padlen, isneg + cnt)) + sign + Cased(text, upper), len0, str)
  {
    hide Cased, DigitChar;
    ghost var front := Repeat(padchar, PadWidth(padlen, isneg + cnt)) + sign;
    JoinWrites(front, Cased(text, upper), len0);
    var mid, len := EmitFront(a, str0, padchar, padlen, isneg, cnt, len0, sign);
    ghost var done := a[str0..mid];
    str := EmitDigits(buf, cnt, base, upper, len, a, mid, text);
    assert a[str0..str] == done + a[mid..str];
  }

  /** The signed printers. The magnitude of the most negative value is not representable. */
  method PrintSigned(val0: int, base: nat, upper: bool, padchar: char, padlen: nat, len0: nat,
                     a: array<char>, str0: nat) returns (str: nat)
    requires Magnitude(val0) < SIGN_BIT && (base == 10 || base == 16)
    requires str0 + Min(len0, |Padded(val0, base, upper, padchar, padlen)|) <= a.Length
    modifies a
    ensures Written(a, str0, Padded(val0, base, upper, padchar, padlen), len0, str)
  {
    hide Numeral, AllDigits, DigitChar, Cased, Repeat, PadWidth;
    var isneg, val := 0, val0;
    if val < 0 {
      isneg := 1;
      val := -val;
    }
    DigitsFit(val, base);
    PaddedParts(val0, base, upper, padchar, padlen);
    var buf := new nat[24];
    var cnt := Digits(buf, val, base);
    ghost var sign := if isneg > 0 then "-" else "";
    str := EmitAll(a, str0, padchar, padlen, isneg, len0, sign, buf, cnt, base, upper, Numeral(val, base));
  }

  lemma PaddedParts(val: int, base: nat, upper: bool, padchar: char, padlen: nat)
    requires 2 <= base <= 36
    ensures var (sign, text) := (if val < 0 then "-" else "", Numeral(Magnitude(val), base));
      Padded(val, base, upper, padchar, padlen)
      == Repeat(padchar, PadWidth(padlen, |sign| + |text|)) + sign + Cased(text, upper)
  {
    hide Numeral;
  }

  /** The unsigned printers. */
  method PrintUnsigned(val: nat, base: nat, upper: bool, padchar: char, padlen: nat, len0: nat,
                       a: array<char>, str0: nat) returns (str: nat)
    requires val < WORD && (base == 10 || base == 16)
    requires str0 + Min(len0, |Padded(val, base, upper, padchar, padlen)|) <= a.Length
    modifies a
    ensures Written(a, str0, Padded(val, base, upper, padchar, padlen), len0, str)
  {
    hide Numeral, AllDigits, DigitChar, Cased, Repeat, PadWidth;
    DigitsFit(val, base);
    PaddedParts(val, base, upper, padchar, padlen);
    var buf := new nat[24];
    var cnt := Digits(buf, val, base);
    str := EmitAll(a, str0, padchar, padlen, 0, len0, "", buf, cnt, base, upper, Numeral(val, base));
  }

  /** What the printers write in full: the padding and then the numeral, with its sign, as wide as asked and no
      narrower than the numeral, in letters of the case asked for. */
  lemma PaddedMeans(val: int, base: nat, upper: bool, padchar: char, padlen: nat) returns (pad: string, text: string)
    requires base == 10 || base == 16
    ensures var sign := if val < 0 then "-" else "";
      && Padded(val, base, upper, padchar, padlen) == pad + sign + text
      && (forall i :: 0 <= i < |pad| ==> pad[i] == padchar)
      && |pad + sign + text| == (if padlen > |sign + text| then padlen else |sign + text|)
      && DigitsOf(text, base, if val < 0 then -val else val)
      && if upper then UpperCase(text) else LowerCase(text)
  {
    hide Numeral, DigitsOf, LowerCase, UpperCase;
    PaddedParts(val, base, upper, padchar, padlen);
    NumeralIsDigits(Magnitude(val), base);
    UpperCased(Numeral(Magnitude(val), base), base, Magnitude(val));
    text := Cased(Numeral(Magnitude(val), base), upper);
    pad := Repeat(padchar, PadWidth(padlen, |if val < 0 then "-" else ""| + |text|));
  }

  // ---------- parsing ----------

  /** Where the reading stopped and what was stored; None returns the start and stores nothing. */
  datatype Read = Read(end: nat, value: int)

  /** A 32-bit word as a signed integer. */
  function ToSigned(w: nat): (v: int)
    requires w < WORD
    ensures Magnitude(v) < SIGN_BIT || w == SIGN_BIT
  {
    if w < SIGN_BIT then w else w - WORD
  }

  /** In base 16 a lower-case `0x` is skipped. */
  function SkipHexPrefix(s: string, i: nat, base: nat): (r: nat)
    requires i <= |s|
    ensures i <= r <= |s|
  {
    if base == 16 && At(s, i) == '0' && At(s, i + 1) == 'x' then i + 2 else i
  }

  /** The digits from `i` on, their value wrapped to 32 bits. */
  function ReadDigitsAt(s: string, i: nat, base: nat): (r: Option<Read>)
    requires i <= |s|
    ensures r.Some? ==> i < r.value.end <= |s| && 0 <= r.value.value < WORD
  {
    var end := DigitsEnd(s, i, base);
    if end == i then None else Some(Read(end, Wrapped(Value(s[i..end], base))))
  }

  function ReadUnsigned(s: string, base: nat): (r: Option<Read>)
    ensures r.Some? ==> 0 < r.value.end <= |s| && 0 <= r.value.value < WORD
  {
    ReadDigitsAt(s, SkipHexPrefix(s, SkipSpaces(s, 0), base), base)
  }

  function ReadSigned(s: string, base: nat): (r: Option<Read>)
    ensures r.Some? ==> 0 < r.value.end <= |s|
  {
    var i := SkipSpaces(s, 0);
    var isneg := At(s, i) == '-';
    var j := if At(s, i) == '+' || isneg then i + 1 else i;
    match ReadDigitsAt(s, SkipHexPrefix(s, j, base), base)
    case None => None
    case Some(r) => Some(Read(r.end, ToSigned(if isneg then Wrapped(WORD - r.value) else r.value)))
  }

  method Skip(s: string) returns (cur: nat)
    requires Text(s)
    ensures cur == SkipSpaces(s, 0)
  {
    cur := 0;
    while IsSpace(At(s, cur))
      invariant cur <= |s| && SkipSpaces(s, cur) == SkipSpaces(s, 0)
      decreases |s| - cur
    {
      cur := cur + 1;
    }
  }

  /** The accumulating loop of the four parsers. */
  method Accumulate(s: string, start: nat, base: nat) returns (cur: nat, value: nat)
    requires Text(s) && start <= |s| && (base == 10 || base == 16)
    ensures cur == DigitsEnd(s, start, base) && value == Wrapped(Value(s[start..cur], base))
  {
    hide Value, Wrapped, AllDigits;
    cur, value := start, 0;
    ValueNone(base);
    assert s[start..start] == "";
    while At(s, cur) != NUL
      invariant start <= cur <= |s| && DigitsEnd(s, cur, base) == DigitsEnd(s, start, base)
      invariant value == Wrapped(Value(s[start..cur], base))
      decreases |s| - cur
    {
      var c := At(s, cur);
      var digit;
      if '0' <= c <= '9' {
        digit := c as int - '0' as int;
      } else if base == 16 && 'a' <= c <= 'f' {
        digit := 10 + (c as int - 'a' as int);
      } else if base == 16 && 'A' <= c <= 'F' {
        digit := 10 + (c as int - 'A' as int);
      } else {
        break;
      }
      ValueGrows(s, start, cur, base);
      WrapStep(Value(s[start..cur], base), base, digit);
      value := Wrapped(value * base + digit);
      cur := cur + 1;
    }
  }

  method ParseUnsigned(s: string, base: nat) returns (r: Option<Read>)
    requires Text(s) && (base == 10 || base == 16)
    ensures r == ReadUnsigned(s, base)
  {
    var cur := Skip(s);
    if base == 16 && At(s, cur) == '0' && At(s, cur + 1) == 'x' {
      cur := cur + 2;
    }
    var end, value := Accumulate(s, cur, base);
    r := if end == cur then None else Some(Read(end, value));
  }

  method ParseSigned(s: string, base: nat) returns (r: Option<Read>)
    requires Text(s) && (base == 10 || base == 16)
    ensures r == ReadSigned(s, base)
  {
    hide SkipSpaces, DigitsEnd, Value, Wrapped, ToSigned;
    var cur := Skip(s);
    var isneg := false;
    if At(s, cur) == '+' {
      cur := cur + 1;
    } else if At(s, cur) == '-' {
      cur := cur + 1;
      isneg := true;
    }
    if base == 16 && At(s, cur) == '0' && At(s, cur + 1) == 'x' {
      cur := cur + 2;
    }
    var end, value := Accumulate(s, cur, base);
    if end == cur {
      return None;
    }
    r := Some(Read(end, ToSigned(if isneg then Wrapped(WORD - value) else value)));
  }

  // ---------- what is printed is read back ----------

  /** Digits of a padded numeral, ready to be read at `i`. */
  ghost predicate Ready(s: string, i: nat, digits: string, tail: string, base: nat) {
    i <= |s| && s[i..] == digits + tail && digits != "" && AllDigits(digits, base) && Ends(tail, base)
  }

  /** A lone zero before an `x` is taken for a prefix in base 16. */
  predicate LooksLikePrefix(digits: string, tail: string, base: nat) {
    base == 16 && digits == "0" && tail != "" && tail[0] == 'x'
  }

  lemma ReadsReady(s: string, i: nat, digits: string, tail: string, base: nat)
    requires Ready(s, i, digits, tail, base) && (base == 10 || base == 16)
    ensures var r := ReadDigitsAt(s, SkipHexPrefix(s, i, base), base);
      if LooksLikePrefix(digits, tail, base) then r.None? || r.value.end > i + |digits|
      else r == Some(Read(i + |digits|, Wrapped(Value(digits, base))))
  {
    hide Value, DigitsEnd, AllDigits;
    DigitsFound(s, i, digits, tail, base);
    ReadyChars(s, i, digits, tail, base);
  }

  lemma ReadyChars(s: string, i: nat, digits: string, tail: string, base: nat)
    requires Ready(s, i, digits, tail, base) && (base == 10 || base == 16)
    ensures base == 16 && At(s, i) == '0' && At(s, i + 1) == 'x' <==> LooksLikePrefix(digits, tail, base)
  {
    assert At(s, i) == s[i..][0] == digits[0];
    assert i + 1 < |s| ==> s[i+1] == s[i..][1];
    assert forall k :: 0 <= k < |digits| ==> IsDigit(digits[k], base);
  }

  lemma SkipsBlanks(n: nat, rest: string)
    requires rest != "" && !IsSpace(rest[0])
    ensures var s := Repeat(' ', n) + rest; SkipSpaces(s, 0) == n && s[n..] == rest && At(s, n) == rest[0]
  {
    var s := Repeat(' ', n) + rest;
    assert forall k :: 0 <= k < n ==> s[k] == ' ';
    assert s[n] == rest[0];
  }

  lemma CasedNumeral(v: nat, base: nat, upper: bool)
    requires base == 10 || base == 16
    ensures var d := Cased(Numeral(v, base), upper);
      AllDigits(d, base) && Value(d, base) == v && !IsSpace(d[0]) && d[0] != '+' && d[0] != '-'
    ensures Cased(Numeral(v, base), upper) == "0" <==> v == 0
  {
    hide Value, Quot, Rem;
    var d := Cased(Numeral(v, base), upper);
    NumeralValue(v, base);
    UpperValue(Numeral(v, base), base);
    NumeralLeads(v, base);
    assert IsDigit(d[0], base) && IsDigit(Numeral(v, base)[0], base);
  }

  /** Behind any blanks, a sign of either kind or none, and in base 16 a prefix `0x` or none, digits are read up to
      the tail, as their value modulo 2^32, negated under a minus sign. */
  lemma SignedRead(n: nat, sign: string, prefix: string, digits: string, tail: string, base: nat)
    requires (base == 10 || base == 16) && (sign == "" || sign == "+" || sign == "-")
    requires prefix == "" || (base == 16 && prefix == "0x")
    requires digits != "" && AllDigits(digits, base) && Ends(tail, base)
    requires prefix == "" ==> !LooksLikePrefix(digits, tail, base)
    ensures var s := Repeat(' ', n) + (sign + prefix + digits + tail);
      var w := Wrapped(Value(digits, base));
      && ReadSigned(s, base)
         == Some(Read(|s| - |tail|, ToSigned(if sign == "-" then Wrapped(WORD - w) else w)))
      && (sign == "" ==> ReadUnsigned(s, base) == Some(Read(|s| - |tail|, w)))
  {
    hide Value, AllDigits, DigitsEnd, SkipSpaces, SkipHexPrefix, ReadDigitsAt, Wrapped, LooksLikePrefix, IsSpace;
    var rest := sign + prefix + digits + tail;
    var s := Repeat(' ', n) + rest;
    StartsPlain(sign, prefix, digits, tail, base);
    SkipsBlanks(n, rest);
    var i := n + |sign|;
    assert s[i..] == prefix + digits + tail;
    DigitsAfterPrefix(s, i, prefix, digits, tail, base);
    assert sign != "" ==> At(s, n) == sign[0];
  }

  lemma StartsPlain(sign: string, prefix: string, digits: string, tail: string, base: nat)
    requires (base == 10 || base == 16) && (sign == "" || sign == "+" || sign == "-")
    requires prefix == "" || prefix == "0x"
    requires digits != "" && AllDigits(digits, base)
    ensures var rest := sign + prefix + digits + tail;
      rest != "" && !IsSpace(rest[0]) && (sign == "" ==> rest[0] != '+' && rest[0] != '-')
  {
    assert IsDigit(digits[0], base);
  }

  lemma DigitsAfterPrefix(s: string, i: nat, prefix: string, digits: string, tail: string, base: nat)
    requires i <= |s| && s[i..] == prefix + digits + tail && (base == 10 || base == 16)
    requires prefix == "" || (base == 16 && prefix == "0x")
    requires digits != "" && AllDigits(digits, base) && Ends(tail, base)
    requires prefix == "" ==> !LooksLikePrefix(digits, tail, base)
    ensures ReadDigitsAt(s, SkipHexPrefix(s, i, base), base)
         == Some(Read(|s| - |tail|, Wrapped(Value(digits, base))))
  {
    hide Value, AllDigits, DigitsEnd, Wrapped, LooksLikePrefix;
    if prefix == "" {
      assert prefix + digits + tail == digits + tail;
      ReadsReady(s, i, digits, tail, base);
    } else {
      assert s[i] == s[i..][0] && s[i+1] == s[i..][1];
      assert s[i+2..] == s[i..][2..] == digits + tail;
      DigitsFound(s, i + 2, digits, tail, base);
    }
  }

  /** What stands behind the blanks of a padded unsigned numeral. */
  function UnsignedDigits(val: nat, base: nat, upper: bool, padchar: char, padlen: nat): string
    requires 2 <= base <= 36
  {
    var d := Cased(Numeral(val, base), upper);
    Repeat('0', if padchar == '0' then PadWidth(padlen, |d|) else 0) + d
  }

  lemma ZerosInFront(n: nat, plain: string, base: nat)
    requires plain != "" && AllDigits(plain, base) && !IsSpace(plain[0]) && 0 < base
    ensures var d := Repeat('0', n) + plain;
      && d != "" && AllDigits(d, base) && !IsSpace(d[0]) && Value(d, base) == Value(plain, base)
      && (d == "0" <==> n == 0 && plain == "0") && (n == 0 ==> d == plain)
  {
    hide Value;
    PaddedValue(n, plain, base);
    var d := Repeat('0', n) + plain;
    assert forall k :: 0 <= k < |d| ==> d[k] == if k < n then '0' else plain[k-n];
  }

  lemma UnsignedDigitsValue(val: nat, base: nat, upper: bool, padchar: char, padlen: nat)
    requires val < WORD && (base == 10 || base == 16) && (padchar == ' ' || padchar == '0')
    ensures var d := UnsignedDigits(val, base, upper, padchar, padlen);
      && d != "" && AllDigits(d, base) && !IsSpace(d[0]) && Value(d, base) == val
      && Padded(val, base, upper, padchar, padlen)
         == Repeat(' ', if padchar == ' ' then PadWidth(padlen, |d|) else 0) + d
      && (d == "0" <==> val == 0 && (padchar == ' ' || padlen <= 1))
  {
    hide Value, Numeral, AllDigits, Cased, IsSpace;
    var plain := Cased(Numeral(val, base), upper);
    CasedNumeral(val, base, upper);
    ZerosInFront(if padchar == '0' then PadWidth(padlen, |plain|) else 0, plain, base);
    assert Plain(val, base, upper) == plain;
  }

  /** The unsigned parser recovers a padded unsigned numeral and stops right behind its last digit,
      unless in base 16 a lone printed zero is followed by an `x`. */
  lemma UnsignedRoundTrip(val: nat, base: nat, upper: bool, padchar: char, padlen: nat, tail: string)
    requires val < WORD && (base == 10 || base == 16) && (padchar == ' ' || padchar == '0') && Ends(tail, base)
    ensures var full := Padded(val, base, upper, padchar, padlen);
      ReadUnsigned(full + tail, base) == Some(Read(|full|, val))
      <==> !(base == 16 && val == 0 && (padchar == ' ' || padlen <= 1) && tail != "" && tail[0] == 'x')
  {
    hide Value, AllDigits, Numeral, DigitsEnd, SkipSpaces, Padded, UnsignedDigits, ReadDigitsAt, SkipHexPrefix, Wrapped;
    var full, d := Padded(val, base, upper, padchar, padlen), UnsignedDigits(val, base, upper, padchar, padlen);
    UnsignedDigitsValue(val, base, upper, padchar, padlen);
    var n := if padchar == ' ' then PadWidth(padlen, |d|) else 0;
    assert full + tail == Repeat(' ', n) + (d + tail);
    SkipsBlanks(n, d + tail);
    ReadsReady(full + tail, n, d, tail, base);
  }

  /** The signed parser recovers a blank-padded signed numeral in the same way, the most negative one
      included (which the signed printers cannot print). */
  lemma SignedRoundTrip(val: int, base: nat, upper: bool, padlen: nat, tail: string)
    requires -SIGN_BIT <= val < SIGN_BIT && (base == 10 || base == 16) && Ends(tail, base)
    ensures var full := Padded(val, base, upper, ' ', padlen);
      ReadSigned(full + tail, base) == Some(Read(|full|, val))
      <==> !(base == 16 && val == 0 && tail != "" && tail[0] == 'x')
  {
    hide Value, AllDigits, Numeral, DigitsEnd, SkipSpaces, ReadDigitsAt, SkipHexPrefix, Cased;
    var full, d := Padded(val, base, upper, ' ', padlen), Cased(Numeral(Magnitude(val), base), upper);
    var sign := if val < 0 then "-" else "";
    CasedNumeral(Magnitude(val), base, upper);
    var n := PadWidth(padlen, |sign + d|);
    var s := full + tail;
    assert s == Repeat(' ', n) + (sign + d + tail);
    SkipsBlanks(n, sign + d + tail);
    var i := n + |sign|;
    assert s[i..] == d + tail;
    ReadsReady(s, i, d, tail, base);
  }
}
