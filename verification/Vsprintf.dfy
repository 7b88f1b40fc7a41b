/** The format interpreter of vsprintf.c (without the floating-point directives). */
module Vsprintf {
  import opened CStrings
  import opened Numerals
  import opened BoundedNumerals
  import opened Atob
  import opened Format
  import opened Wrappers

  /** A variadic argument: an integer, or a string pointer that may be NULL. */
  datatype Arg = Int(v: int) | Str(s: string) | Null

  function Word(v: int): (w: nat)
    ensures w < WORD
  {
    v % WORD
  }

  predicate OneOf(s: string, c: char) {
    c in s
  }

  // ---------- reading a directive ----------

  /** What the flags say: where the conversion character is, how many arguments are used up to there,
      and the justification, field width and precision collected. */
  datatype Flags = Flags(at: nat, used: nat, just: Just, width: int, trunc: int)

  /** Flags up to a conversion character. Unknown characters are ignored, later flags win, a number or
      star behind a point is the precision, any other the width. */
  function ReadFlags(fmt: string, f: Flags, haddot: bool, args: seq<Arg>): (r: Option<Flags>)
    requires f.at <= |fmt|
    ensures r.Some? ==> f.at <= r.value.at < |fmt| && OneOf("dobpxXulscefg%", fmt[r.value.at])
    decreases |fmt| - f.at
  {
    if f.at == |fmt| then None
    else
      var c := fmt[f.at];
      var g := f.(at := f.at + 1);
      if OneOf("dobpxXulscefg%", c) then Some(f)
      else if c == '-' then ReadFlags(fmt, g.(just := LJust), haddot, args)
      else if c == '0' then ReadFlags(fmt, g.(just := RJust0), haddot, args)
      else if c == '~' then ReadFlags(fmt, g.(just := Center), haddot, args)
      else if c == '*' then
        if f.used < |args| && args[f.used].Int? then
          var n := args[f.used].v;
          var h := g.(used := f.used + 1);
          ReadFlags(fmt, if haddot then h.(trunc := n) else h.(width := n), haddot, args)
        else None
      else if '1' <= c <= '9' then
        var j := DigitsEnd(fmt, f.at, 10);
        // the digits are copied into a buffer of 40
        if j - f.at >= 40 then None
        else
          var n := ToSigned(Wrapped(Value(fmt[f.at..j], 10)));
          var h := f.(at := j);
          assert IsDigit(c, 10);
          ReadFlags(fmt, if haddot then h.(trunc := n) else h.(width := n), haddot, args)
      else if c == '.' then ReadFlags(fmt, g, true, args)
      else ReadFlags(fmt, g, haddot, args)
  }

  /** A directive read in full: `lead` is written first and never padded, `body` is the text that is cut
      and padded, `span` is how many characters before the terminator are written (a NUL character
      counts). */
  datatype Directive = Directive(next: nat, used: nat, lead: string, body: string, span: nat,
                                 just: Just, width: int, trunc: int)

  function BaseOf(c: char): int {
    if c == 'd' then -10 else if c == 'u' then 10 else if c == 'o' then 8 else if c == 'b' then 2 else 16
  }

  function IntText(c: char, v: int): (s: string)
    requires OneOf("dobpxXu", c)
    ensures Text(s) && |s| <= 33
  {
    var s := BtoaText(Word(v), BaseOf(c));
    if c == 'X' then UpperIsText(s); Upper(s) else s
  }

  lemma UpperIsText(s: string)
    requires Text(s)
    ensures Text(Upper(s))
  {
    assert forall i :: 0 <= i < |s| ==> s[i] != NUL && Upper(s)[i] != NUL;
  }

  /** The directive behind the percent sign at `i - 1`; None when it is incomplete, floating-point, lacks an
      argument of its kind or has a negative precision. */
  function ReadDirective(fmt: string, i: nat, args: seq<Arg>, k: nat): (r: Option<Directive>)
    requires i <= |fmt|
    ensures r.Some? ==> i < r.value.next <= |fmt| && 0 <= r.value.trunc
  {
    match ReadFlags(fmt, Flags(i, k, RJust, 0, 0), false, args)
    case None => None
    case Some(f) =>
      if f.trunc < 0 then None else Convert(fmt, f, args)
  }

  function Convert(fmt: string, f: Flags, args: seq<Arg>): (r: Option<Directive>)
    requires f.at < |fmt|
    ensures r.Some? ==> f.at < r.value.next <= |fmt| && r.value.trunc == f.trunc && |r.value.body| <= r.value.span
  {
    var c := fmt[f.at];
    if c == '%' then Some(Directive(f.at + 1, f.used, "%", "", 0, f.just, f.width, f.trunc))
    else if f.used >= |args| then None
    else
      var arg := args[f.used];
      if c == 's' then
        match arg
        case Int(_) => None
        case Str(s) => Some(Directive(f.at + 1, f.used + 1, "", s, |s|, f.just, f.width, f.trunc))
        case Null => Some(Directive(f.at + 1, f.used + 1, "", "(null)", 6, f.just, f.width, f.trunc))
      else if !arg.Int? then None
      else if c == 'c' then
        Some(Directive(f.at + 1, f.used + 1, "", CharText(arg.v), 1, f.just, f.width, f.trunc))
      else
        // an `l` or `ll` in front of the conversion changes nothing: the value is cut to 32 bits
        var at := SkipLong(fmt, f.at);
        var d := At(fmt, at);
        if !OneOf("dobpxXu", d) then None
        else
          var text := IntText(d, arg.v);
          if d == 'p' then Some(Directive(at + 1, f.used + 1, "0x", text, |text|, RJust0, 8, f.trunc))
          else Some(Directive(at + 1, f.used + 1, "", text, |text|, f.just, f.width, f.trunc))
  }

  function SkipLong(fmt: string, at: nat): (r: nat)
    ensures at <= r
  {
    if At(fmt, at) != 'l' then at else if At(fmt, at + 1) != 'l' then at + 1 else at + 2
  }

  function CharText(v: int): (s: string)
    ensures Text(s) && |s| <= 1
  {
    if v % 256 == 0 then "" else [(v % 256) as char]
  }

  // ---------- rendering ----------

  /** A nonzero precision cuts the text. */
  function Cut(t: string, trunc: nat): (r: string) {
    if 0 < trunc < |t| then t[..trunc] else t
  }

  function Field(d: Directive): string
    requires 0 <= d.trunc
  {
    Justify(Cut(d.body, d.trunc), d.width, d.just)
  }

  /** The output of the format from position `i` with arguments from `k`; None for a directive that
      `ReadDirective` refuses. */
  function Render(fmt: string, i: nat, args: seq<Arg>, k: nat): (r: Option<string>)
    requires i <= |fmt|
    decreases |fmt| - i
  {
    if i == |fmt| then Some("")
    else if fmt[i] != '%' then
      match Render(fmt, i + 1, args, k)
      case None => None
      case Some(rest) => Some([fmt[i]] + rest)
    else
      match ReadDirective(fmt, i + 1, args, k)
      case None => None
      case Some(d) =>
        match Render(fmt, d.next, args, d.used)
        case None => None
        case Some(rest) => Some(d.lead + Field(d) + rest)
  }

  function Max(a: nat, b: nat): nat {
    if a < b then b else a
  }

  /** Positions behind the cursor that one field touches: the text before it is cut, the terminator the
      cut stores (even behind the text), and the padded field. */
  function FieldNeeds(d: Directive): nat
    requires 0 <= d.trunc
  {
    Max(d.span, Max(d.trunc, |Field(d)|)) + 1
  }

  /** Positions the whole output touches, the final terminator included. */
  function Needs(fmt: string, i: nat, args: seq<Arg>, k: nat): nat
    requires i <= |fmt|
    decreases |fmt| - i
  {
    if i == |fmt| then 1
    else if fmt[i] != '%' then 1 + Needs(fmt, i + 1, args, k)
    else
      match ReadDirective(fmt, i + 1, args, k)
      case None => 0
      case Some(d) =>
        |d.lead| + Max(FieldNeeds(d), |Field(d)| + Needs(fmt, d.next, args, d.used))
  }

  predicate TextArgs(args: seq<Arg>) {
    forall i :: 0 <= i < |args| && args[i].Str? ==> Text(args[i].s)
  }

  // ---------- the interpreter ----------

  /** The flag loop, from the character behind the percent sign. */
  method Scan(fmt: string, s0: nat, args: seq<Arg>, k0: nat) returns (f: Flags)
    requires Text(fmt) && s0 <= |fmt| && ReadFlags(fmt, Flags(s0, k0, RJust, 0, 0), false, args).Some?
    ensures Some(f) == ReadFlags(fmt, Flags(s0, k0, RJust, 0, 0), false, args)
  {
    hide DigitsEnd, Value, OneOf;
    var s, k, just, width, trunc, haddot := s0, k0, RJust, 0, 0, false;
    ghost var all := ReadFlags(fmt, Flags(s0, k0, RJust, 0, 0), false, args);
    while At(fmt, s) != NUL
      invariant 0 <= s <= |fmt| && 0 <= k && all == ReadFlags(fmt, Flags(s, k, just, width, trunc), haddot, args)
      decreases |fmt| - s
    {
      var c := At(fmt, s);
      if OneOf("dobpxXulscefg%", c) {
        break;
      } else if c == '-' {
        just := LJust;
      } else if c == '0' {
        just := RJust0;
      } else if c == '~' {
        just := Center;
      } else if c == '*' {
        var n := args[k].v;
        k := k + 1;
        if haddot {
          trunc := n;
        } else {
          width := n;
        }
      } else if '1' <= c <= '9' {
        var n;
        n, s := Number(fmt, s);
        if haddot {
          trunc := n;
        } else {
          width := n;
        }
        s := s - 1;
      } else if c == '.' {
        haddot := true;
      }
      s := s + 1;
    }
    f := Flags(s, k, just, width, trunc);
  }

  /** A run of decimal digits, read by `atob` into an unsigned and stored in an int. */
  method Number(fmt: string, t: nat) returns (n: int, s: nat)
    requires Text(fmt) && t < |fmt| && '1' <= fmt[t] <= '9'
    ensures s == DigitsEnd(fmt, t, 10) && t < s && n == ToSigned(Wrapped(Value(fmt[t..s], 10)))
  {
    hide Value;
    s := t;
    while '0' <= At(fmt, s) <= '9'
      invariant t <= s <= |fmt| && DigitsEnd(fmt, s, 10) == DigitsEnd(fmt, t, 10)
      decreases |fmt| - s
    {
      s := s + 1;
    }
    var tmp := fmt[t..s];
    PlainDecimal(tmp);
    var r := Atob.Atob(tmp, 10);
    n := ToSigned(r.value);
  }

  lemma PlainDecimal(s: string)
    requires AllDigits(s, 10)
    ensures AtobValue(s, 10) == Some(Wrapped(Value(s, 10)))
  {
    assert forall i :: 0 <= i < |s| ==> IsDigit(s[i], 10) && s[i] != 'x' && s[i] != 'X';
  }

  lemma ArgIsText(args: seq<Arg>)
    requires TextArgs(args)
    ensures forall i :: 0 <= i < |args| && args[i].Str? ==> Text(args[i].s)
  {
  }

  /** The lead and the uncut text of a directive are written at the cursor. */
  method PutBody(a: array<char>, d0: nat, fmt: string, f: Flags, args: seq<Arg>, ghost dir: Directive)
    returns (d: nat, s: nat, k: nat, just: Just, width: int)
    requires Text(fmt) && TextArgs(args) && f.at < |fmt| && Convert(fmt, f, args) == Some(dir)
    requires d0 + |dir.lead| + dir.span < a.Length
    modifies a
    ensures d == d0 + |dir.lead| && a[d0..d] == dir.lead && Holds(a, d, dir.body)
    ensures OnlyWithin(a, d0, d + dir.span + 1)
    ensures s + 1 == dir.next && k == dir.used && just == dir.just && width == dir.width
  {
    hide IntText, TextArgs;
    ArgIsText(args);
    d, s, k, just, width := d0, f.at, f.used, f.just, f.width;
    var c := At(fmt, s);
    if c == '%' {
      a[d] := '%';
      d := d + 1;
      a[d] := NUL;
    } else if c == 's' {
      var p := args[k];
      k := k + 1;
      if p.Str? {
        Strcpy(a, d, p.s);
      } else {
        Strcpy(a, d, "(null)");
      }
    } else if c == 'c' {
      var n := args[k].v;
      k := k + 1;
      a[d] := (n % 256) as char;
      a[d+1] := NUL;
    } else {
      s := f.at;
      if c == 'l' {
        s := s + 1;
        if At(fmt, s) == 'l' {
          s := s + 1;
        }
      }
      d, just, width := PutNumber(a, d, At(fmt, s), args[k].v, f);
      k := k + 1;
    }
  }

  /** An integer conversion; `p` writes `0x` first and forces zero padding to eight digits. */
  method PutNumber(a: array<char>, d0: nat, c: char, v: int, f: Flags) returns (d: nat, just: Just, width: int)
    requires OneOf("dobpxXu", c) && d0 + (if c == 'p' then 2 else 0) + |IntText(c, v)| < a.Length
    modifies a
    ensures d == d0 + (if c == 'p' then 2 else 0) && Holds(a, d, IntText(c, v))
    ensures a[d0..d] == if c == 'p' then "0x" else ""
    ensures OnlyWithin(a, d0, d + |IntText(c, v)| + 1)
    ensures if c == 'p' then just == RJust0 && width == 8 else just == f.just && width == f.width
  {
    d, just, width := d0, f.just, f.width;
    var base;
    if c == 'd' {
      base := -10;
    } else if c == 'u' {
      base := 10;
    } else if c == 'x' || c == 'X' {
      base := 16;
    } else if c == 'p' {
      base := 16;
      a[d] := '0';
      a[d+1] := 'x';
      d := d + 2;
      just := RJust0;
      width := 8;
    } else if c == 'o' {
      base := 8;
    } else if c == 'b' {
      base := 2;
    }
    Btoa(a, d, Word(v), base);
    if c == 'X' {
      StrToUpper(a, d, BtoaText(Word(v), base));
    }
  }

  method StrToUpper(a: array<char>, p0: nat, ghost s: string)
    requires Holds(a, p0, s)
    modifies a
    ensures Holds(a, p0, Upper(s)) && OnlyWithin(a, p0, p0 + |s|)
  {
    var p := p0;
    ghost var b := a[..];
    while a[p] != NUL
      invariant p0 <= p <= p0 + |s|
      invariant forall k :: p0 <= k < p ==> a[k] == ToUpper(b[k])
      invariant forall k :: 0 <= k < a.Length && (k < p0 || p <= k) ==> a[k] == b[k]
      decreases p0 + |s| - p
    {
      assert b[p] == s[p-p0];
      a[p] := ToUpper(a[p]);
      p := p + 1;
    }
    UpperIsText(s);
    assert a[p0..p0+|s|] == Upper(s);
  }

  /** The text at `d` is cut and padded in place; the cursor comes back behind it. */
  method CutAndPad(a: array<char>, d0: nat, trunc: nat, width: int, just: Just, ghost t: string) returns (d: nat)
    requires Holds(a, d0, t) && d0 + trunc < a.Length && d0 + |Justify(Cut(t, trunc), width, just)| < a.Length
    modifies a
    ensures d == d0 + |Justify(Cut(t, trunc), width, just)| < a.Length
    ensures a[d0..d] == Justify(Cut(t, trunc), width, just)
    ensures OnlyWithin(a, d0, d0 + Max(trunc, |Justify(Cut(t, trunc), width, just)|) + 1)
  {
    hide Justify;
    ghost var text := Cut(t, trunc);
    if trunc != 0 {
      a[d0+trunc] := NUL;
      assert trunc <= |t| ==> a[d0..d0+trunc] == t[..trunc];
    }
    assert Holds(a, d0, text);
    JustifyNothing(text, just);
    if width != 0 {
      StrFmt(a, d0, width, just, text);
    }
    var n := Strlen(a, d0, Justify(text, width, just));
    d := d0 + n;
  }

  /** A directive: the text is written, cut, padded in place, and the cursor moves behind the field. */
  method PutField(a: array<char>, d0: nat, fmt: string, s0: nat, args: seq<Arg>, k0: nat, ghost dir: Directive)
    returns (d: nat, s: nat, k: nat)
    requires Text(fmt) && TextArgs(args) && s0 <= |fmt| && ReadDirective(fmt, s0, args, k0) == Some(dir)
    requires d0 + |dir.lead| + FieldNeeds(dir) <= a.Length
    modifies a
    ensures d == d0 + |dir.lead + Field(dir)| < a.Length && s == dir.next && k == dir.used
    ensures a[d0..d] == dir.lead + Field(dir) && OnlyWithin(a, d0, d0 + |dir.lead| + FieldNeeds(dir))
  {
    hide Convert, Justify, Holds, Cut, ReadFlags;
    var f := Scan(fmt, s0, args, k0);
    var just, width;
    d, s, k, just, width := PutBody(a, d0, fmt, f, args, dir);
    ghost var lead, start := a[d0..d], d;
    d := CutAndPad(a, d, f.trunc, width, just, dir.body);
    assert a[d0..start] == lead;
    assert a[d0..d] == lead + a[start..d];
    s := s + 1;
  }

  lemma JustifyNothing(t: string, just: Just)
    ensures Justify(t, 0, just) == t
  {
  }

  lemma FieldIsText(fmt: string, i: nat, args: seq<Arg>, k: nat)
    requires TextArgs(args) && i <= |fmt| && ReadDirective(fmt, i, args, k).Some?
    ensures var d := ReadDirective(fmt, i, args, k).value; Text(d.lead) && Text(Field(d))
  {
    var d := ReadDirective(fmt, i, args, k).value;
    assert Text(d.body) && Text(d.lead);
    JustifyIsText(Cut(d.body, d.trunc), d.width, d.just);
  }

  lemma JustifyIsText(t: string, size: int, just: Just)
    requires Text(t)
    ensures Text(Justify(t, size, just))
  {
    assert forall n :: Text(Repeat(' ', n)) && Text(Repeat('0', n));
  }

  lemma {:induction false} RenderIsText(fmt: string, i: nat, args: seq<Arg>, k: nat)
    requires Text(fmt) && TextArgs(args) && i <= |fmt| && Render(fmt, i, args, k).Some?
    ensures Text(Render(fmt, i, args, k).value)
    decreases |fmt| - i
  {
    hide ReadDirective, Field;
    if i < |fmt| {
      if fmt[i] != '%' {
        RenderIsText(fmt, i + 1, args, k);
      } else {
        FieldIsText(fmt, i + 1, args, k);
        var d := ReadDirective(fmt, i + 1, args, k).value;
        RenderIsText(fmt, d.next, args, d.used);
      }
    }
  }

  /** What one turn of the interpreter contributes. */
  lemma RenderStep(fmt: string, i: nat, args: seq<Arg>, k: nat)
    requires i <= |fmt| && Render(fmt, i, args, k).Some?
    ensures i == |fmt| ==> Render(fmt, i, args, k).value == "" && Needs(fmt, i, args, k) == 1
    ensures i < |fmt| && fmt[i] != '%' ==>
      && Render(fmt, i + 1, args, k).Some?
      && Render(fmt, i, args, k).value == [fmt[i]] + Render(fmt, i + 1, args, k).value
      && Needs(fmt, i, args, k) == 1 + Needs(fmt, i + 1, args, k)
    ensures i < |fmt| && fmt[i] == '%' ==>
      && ReadDirective(fmt, i + 1, args, k).Some?
      && var d := ReadDirective(fmt, i + 1, args, k).value;
      && Render(fmt, d.next, args, d.used).Some?
      && Render(fmt, i, args, k).value == d.lead + Field(d) + Render(fmt, d.next, args, d.used).value
      && Needs(fmt, i, args, k) >= |d.lead| + FieldNeeds(d)
      && Needs(fmt, i, args, k) >= |d.lead + Field(d)| + Needs(fmt, d.next, args, d.used)
  {
    hide ReadDirective, Field, FieldNeeds;
  }

  /** One turn of the interpreter: a character is copied, or a directive carried out. */
  method PutPiece(a: array<char>, d0: nat, fmt: string, s0: nat, args: seq<Arg>, k0: nat)
    returns (d: nat, s: nat, k: nat)
    requires Text(fmt) && TextArgs(args) && s0 < |fmt| && Render(fmt, s0, args, k0).Some?
    requires d0 + Needs(fmt, s0, args, k0) <= a.Length
    modifies a
    ensures s0 < s <= |fmt| && d0 <= d && d + Needs(fmt, s, args, k) <= d0 + Needs(fmt, s0, args, k0)
    ensures Render(fmt, s, args, k).Some?
    ensures Render(fmt, s0, args, k0).value == a[d0..d] + Render(fmt, s, args, k).value
    ensures OnlyWithin(a, d0, d0 + Needs(fmt, s0, args, k0))
  {
    hide ReadDirective, Field, FieldNeeds, Render, Needs;
    RenderStep(fmt, s0, args, k0);
    d, s, k := d0, s0, k0;
    if At(fmt, s) == '%' {
      d, s, k := PutField(a, d, fmt, s + 1, args, k, ReadDirective(fmt, s + 1, args, k).value);
    } else {
      a[d] := At(fmt, s);
      d, s := d + 1, s + 1;
      assert a[d0..d] == [fmt[s0]];
    }
  }

  method Vsprintf(a: array<char>, dst: nat, fmt: string, args: seq<Arg>) returns (n: nat)
    requires Text(fmt) && TextArgs(args) && Render(fmt, 0, args, 0).Some?
    requires dst + Needs(fmt, 0, args, 0) <= a.Length
    modifies a
    ensures Holds(a, dst, Render(fmt, 0, args, 0).value)
    ensures n == |Render(fmt, 0, args, 0).value|
    ensures OnlyWithin(a, dst, dst + Needs(fmt, 0, args, 0))
  {
    hide ReadDirective, Render, Needs, TextArgs;
    RenderIsText(fmt, 0, args, 0);
    var d, s, k := dst, 0, 0;
    ghost var full, top := Render(fmt, 0, args, 0).value, dst + Needs(fmt, 0, args, 0);
    assert full == a[dst..dst] + full;
    while At(fmt, s) != NUL
      invariant 0 <= s <= |fmt| && 0 <= k && dst <= d && d + Needs(fmt, s, args, k) <= top
      invariant Render(fmt, s, args, k).Some? && full == a[dst..d] + Render(fmt, s, args, k).value
      invariant OnlyWithin(a, dst, top)
      decreases |fmt| - s
    {
      ghost var d0, done := d, a[dst..d];
      d, s, k := PutPiece(a, d, fmt, s, args, k);
      assert a[dst..d0] == done;
      SlicesJoin(a, dst, d0, d);
      assert done + (a[d0..d] + Render(fmt, s, args, k).value) == done + a[d0..d] + Render(fmt, s, args, k).value;
    }
    TextEnds(fmt, s);
    RenderStep(fmt, s, args, k);
    a[d] := NUL;
    return d - dst;
  }
}
