/** What the format language of vsprintf.c means: directives built from a flag, a width and a precision
    are read as such, and printed integers are read back by the parsers of sscanf.c and strtoul.c. */
module FormatMeaning {
  import opened CStrings
  import opened Numerals
  import opened BoundedNumerals
  import Strtoul
  import opened NumeralRoundTrips
  import opened Atob
  import opened Format
  import opened Vsprintf
  import opened Wrappers

  function JustFlag(j: Just): string {
    match j
    case RJust => ""
    case LJust => "-"
    case RJust0 => "0"
    case Center => "~"
  }

  /** A width or precision of zero is left out. */
  function CountText(n: nat): string {
    if n == 0 then "" else Numeral(n, 10)
  }

  function PrecisionText(p: nat): string {
    if p == 0 then "" else "." + CountText(p)
  }

  /** The spelling of a directive. */
  function Spelled(j: Just, width: nat, prec: nat, c: char): string {
    JustFlag(j) + CountText(width) + PrecisionText(prec) + [c]
  }

  lemma CountFacts(n: nat, rest: string)
    requires 0 < n < 0x8000_0000 && Ends(rest, 10)
    ensures var s := CountText(n);
      && s != "" && '1' <= s[0] <= '9' && |s| < 40 && AllDigits(s, 10)
      && ToSigned(Wrapped(Value(s, 10))) == n
  {
    hide Value;
    NumeralValue(n, 10);
    NumeralLeads(n, 10);
    DigitsFit(n, 10);
    assert IsDigit(Numeral(n, 10)[0], 10);
  }

  /** What follows a text that stands at `at`. */
  lemma SuffixAfter(fmt: string, at: nat, s: string, rest: string)
    requires at <= |fmt| && fmt[at..] == s + rest
    ensures at + |s| <= |fmt| && |fmt| - |rest| == at + |s| && fmt[at+|s|..] == rest
    ensures s != "" ==> at < |fmt| && fmt[at] == s[0]
  {
    assert fmt[at+|s|..] == fmt[at..][|s|..];
    assert s != "" ==> fmt[at] == fmt[at..][0];
  }

  /** A nonzero count is read up to whatever does not extend it. */
  lemma CountRead(fmt: string, f: Flags, haddot: bool, args: seq<Arg>, n: nat, rest: string)
    requires f.at <= |fmt| && fmt[f.at..] == CountText(n) + rest && n < 0x8000_0000 && Ends(rest, 10)
    ensures var e := f.at + |CountText(n)|;
      && e <= |fmt| && fmt[e..] == rest
      && var g := f.(at := e);
      ReadFlags(fmt, f, haddot, args)
      == ReadFlags(fmt, if n == 0 then f else if haddot then g.(trunc := n) else g.(width := n), haddot, args)
  {
    hide Value, DigitsEnd, AllDigits, Numeral, ReadFlags, CountText;
    var s := CountText(n);
    NoCount(n);
    SuffixAfter(fmt, f.at, s, rest);
    if n > 0 {
      CountFacts(n, rest);
      DigitsFound(fmt, f.at, s, rest, 10);
      CountStep(fmt, f, haddot, args, f.at + |s|);
    } else {
      assert s == "" && fmt[f.at..] == rest;
    }
  }

  lemma CountStep(fmt: string, f: Flags, haddot: bool, args: seq<Arg>, e: nat)
    requires f.at < e <= |fmt| && '1' <= fmt[f.at] <= '9' && DigitsEnd(fmt, f.at, 10) == e && e - f.at < 40
    ensures var (n, g) := (ToSigned(Wrapped(Value(fmt[f.at..e], 10))), f.(at := e));
      ReadFlags(fmt, f, haddot, args) == ReadFlags(fmt, if haddot then g.(trunc := n) else g.(width := n), haddot, args)
  {
    hide Value, AllDigits;
    assert !OneOf("dobpxXulscefg%", fmt[f.at]);
  }

  /** Characters at which the flags end: a conversion, or an `l` in front of one. */
  predicate Stops(c: char) {
    OneOf("dobpxXulsc%", c)
  }

  lemma ConversionRead(fmt: string, f: Flags, haddot: bool, args: seq<Arg>, c: char, rest: string)
    requires f.at <= |fmt| && fmt[f.at..] == [c] + rest && Stops(c)
    ensures ReadFlags(fmt, f, haddot, args) == Some(f)
  {
    assert fmt[f.at] == fmt[f.at..][0];
    hide ReadFlags;
    StopsIsOneOf(c);
    StopsThere(fmt, f, haddot, args);
  }

  lemma StopsIsOneOf(c: char)
    requires Stops(c)
    ensures OneOf("dobpxXulscefg%", c) && !IsDigit(c, 10) && c != '.'
  {
  }

  lemma StopsThere(fmt: string, f: Flags, haddot: bool, args: seq<Arg>)
    requires f.at < |fmt| && OneOf("dobpxXulscefg%", fmt[f.at])
    ensures ReadFlags(fmt, f, haddot, args) == Some(f)
  {
    hide OneOf;
  }

  lemma FlagRead(fmt: string, f: Flags, args: seq<Arg>, j: Just, rest: string)
    requires f.at <= |fmt| && fmt[f.at..] == JustFlag(j) + rest && f.just == RJust
    ensures var e := f.at + |JustFlag(j)|;
      e <= |fmt| && fmt[e..] == rest
      && ReadFlags(fmt, f, false, args) == ReadFlags(fmt, f.(at := e, just := j), false, args)
  {
    hide ReadFlags, JustFlag;
    var s := JustFlag(j);
    JustFlagSize(j);
    SuffixAfter(fmt, f.at, s, rest);
    if s != "" {
      assert s == [fmt[f.at]];
      FlagStep(fmt, f, args, j);
    } else {
      assert f == f.(at := f.at, just := j);
    }
  }

  lemma JustFlagSize(j: Just)
    ensures |JustFlag(j)| <= 1 && (JustFlag(j) == "" ==> j == RJust)
  {
  }

  lemma FlagStep(fmt: string, f: Flags, args: seq<Arg>, j: Just)
    requires f.at < |fmt| && JustFlag(j) == [fmt[f.at]]
    ensures ReadFlags(fmt, f, false, args) == ReadFlags(fmt, f.(at := f.at + 1, just := j), false, args)
  {
    hide DigitsEnd, Value;
  }

  /** Among several flags the last one decides, and characters that mean nothing are skipped. */
  lemma FlagsSkipped(fmt: string, i: nat, args: seq<Arg>, k: nat)
    requires i < |fmt|
    requires fmt[i] !in "dobpxXulscefg%-0~*.123456789" || (fmt[i] in "-0~" && i + 1 < |fmt| && fmt[i+1] in "-0~")
    ensures ReadDirective(fmt, i, args, k) == ReadDirective(fmt, i + 1, args, k)
  {
    hide Convert, DigitsEnd, Value;
    if fmt[i] in "-0~" {
      TwoFlags(fmt, i, args, k);
    } else {
      NoFlag(fmt, i, args, k);
    }
  }

  lemma NoFlag(fmt: string, i: nat, args: seq<Arg>, k: nat)
    requires i < |fmt| && fmt[i] !in "dobpxXulscefg%-0~*.123456789"
    ensures ReadFlags(fmt, Flags(i, k, RJust, 0, 0), false, args)
         == ReadFlags(fmt, Flags(i + 1, k, RJust, 0, 0), false, args)
  {
    hide DigitsEnd, Value, OneOf;
    MeansNothing(fmt[i]);
  }

  lemma MeansNothing(c: char)
    requires c !in "dobpxXulscefg%-0~*.123456789"
    ensures !OneOf("dobpxXulscefg%", c) && c != '-' && c != '0' && c != '~'
    ensures c != '*' && c != '.' && !('1' <= c <= '9')
  {
    var all := "dobpxXulscefg%-0~*.123456789";
    assert all[14] == '-' && all[15] == '0' && all[16] == '~' && all[17] == '*' && all[18] == '.';
    assert all[19] == '1' && all[20] == '2' && all[21] == '3' && all[22] == '4' && all[23] == '5';
    assert all[24] == '6' && all[25] == '7' && all[26] == '8' && all[27] == '9';
    assert "dobpxXulscefg%" == all[..14];
  }

  lemma TwoFlags(fmt: string, i: nat, args: seq<Arg>, k: nat)
    requires i + 1 < |fmt| && fmt[i] in "-0~" && fmt[i+1] in "-0~"
    ensures ReadFlags(fmt, Flags(i, k, RJust, 0, 0), false, args)
         == ReadFlags(fmt, Flags(i + 1, k, RJust, 0, 0), false, args)
  {
    hide ReadFlags;
    var (c, d) := (fmt[i], fmt[i+1]);
    var f := Flags(i, k, RJust, 0, 0);
    var j := if c == '-' then LJust else if c == '0' then RJust0 else Center;
    var l := if d == '-' then LJust else if d == '0' then RJust0 else Center;
    FlagStep(fmt, f, args, j);
    FlagStep(fmt, f.(at := i + 1, just := j), args, l);
    FlagStep(fmt, f.(at := i + 1), args, l);
  }

  lemma PointRead(fmt: string, f: Flags, args: seq<Arg>, rest: string)
    requires f.at <= |fmt| && fmt[f.at..] == "." + rest
    ensures f.at + 1 <= |fmt| && fmt[f.at+1..] == rest
    ensures ReadFlags(fmt, f, false, args) == ReadFlags(fmt, f.(at := f.at + 1), true, args)
  {
    assert fmt[f.at] == fmt[f.at..][0];
    assert fmt[f.at+1..] == fmt[f.at..][1..];
  }

  lemma NoPrecisionRead(fmt: string, f: Flags, args: seq<Arg>, c: char, rest: string)
    requires f.at <= |fmt| && fmt[f.at..] == PrecisionText(0) + ([c] + rest) && Stops(c)
    ensures ReadFlags(fmt, f, false, args) == Some(f.(at := f.at + |PrecisionText(0)|))
  {
    hide ReadFlags, CountText, Stops;
    assert fmt[f.at..] == [c] + rest;
    ConversionRead(fmt, f, false, args, c, rest);
    assert f == f.(at := f.at);
  }

  lemma SomePrecisionRead(fmt: string, f: Flags, args: seq<Arg>, prec: nat, c: char, rest: string)
    requires f.at <= |fmt| && fmt[f.at..] == "." + (CountText(prec) + ([c] + rest))
    requires 0 < prec < 0x8000_0000 && Stops(c)
    ensures ReadFlags(fmt, f, false, args) == Some(f.(at := f.at + 1 + |CountText(prec)|, trunc := prec))
  {
    hide ReadFlags, CountText, Stops, Ends;
    var tail := [c] + rest;
    assert Ends(tail, 10) by { TailEnds(0, c, rest); assert PrecisionText(0) + tail == tail; }
    var g := f.(at := f.at + 1);
    PointRead(fmt, f, args, CountText(prec) + tail);
    CountRead(fmt, g, true, args, prec, tail);
    ConversionRead(fmt, g.(at := g.at + |CountText(prec)|, trunc := prec), true, args, c, rest);
  }

  lemma PrecisionRead(fmt: string, f: Flags, args: seq<Arg>, prec: nat, c: char, rest: string)
    requires f.at <= |fmt| && fmt[f.at..] == PrecisionText(prec) + ([c] + rest) && f.trunc == 0
    requires prec < 0x8000_0000 && Stops(c)
    ensures ReadFlags(fmt, f, false, args)
         == Some(f.(at := f.at + |PrecisionText(prec)|, trunc := prec))
  {
    hide ReadFlags, CountText, Stops;
    if prec == 0 {
      NoPrecisionRead(fmt, f, args, c, rest);
    } else {
      assert fmt[f.at..] == "." + (CountText(prec) + ([c] + rest));
      SomePrecisionRead(fmt, f, args, prec, c, rest);
    }
  }

  lemma CountsRead(fmt: string, f: Flags, args: seq<Arg>, width: nat, prec: nat, c: char, rest: string)
    requires f.at <= |fmt| && fmt[f.at..] == CountText(width) + (PrecisionText(prec) + ([c] + rest))
    requires f.width == f.trunc == 0 && width < 0x8000_0000 && prec < 0x8000_0000 && Stops(c)
    ensures ReadFlags(fmt, f, false, args)
         == Some(Flags(f.at + |CountText(width)| + |PrecisionText(prec)|, f.used, f.just, width, prec))
  {
    hide ReadFlags, CountText, Stops, PrecisionText;
    TailEnds(prec, c, rest);
    NoCount(width);
    CountRead(fmt, f, false, args, width, PrecisionText(prec) + ([c] + rest));
    var h := Flags(f.at + |CountText(width)|, f.used, f.just, width, 0);
    assert h == if width == 0 then f else f.(at := h.at, width := width);
    PrecisionRead(fmt, h, args, prec, c, rest);
  }

  predicate Converts(c: char) {
    OneOf("dobpxXusc%", c)
  }

  lemma ConvertsStops(c: char)
    requires Converts(c)
    ensures Stops(c)
  {
  }

  /** A spelled directive is read as its flag, its width and its precision. */
  lemma SpelledRead(fmt: string, i: nat, args: seq<Arg>, k: nat, j: Just, width: nat, prec: nat, c: char, rest: string)
    requires i <= |fmt| && fmt[i..] == Spelled(j, width, prec, c) + rest
    requires width < 0x8000_0000 && prec < 0x8000_0000 && Converts(c)
    ensures ReadFlags(fmt, Flags(i, k, RJust, 0, 0), false, args)
         == Some(Flags(i + |Spelled(j, width, prec, c)| - 1, k, j, width, prec))
  {
    hide ReadFlags, CountText, Converts, Stops, PrecisionText, JustFlag, Spelled;
    ConvertsStops(c);
    var counts := CountText(width) + (PrecisionText(prec) + ([c] + rest));
    SpelledParts(j, width, prec, c, rest);
    FlagRead(fmt, Flags(i, k, RJust, 0, 0), args, j, counts);
    CountsRead(fmt, Flags(i + |JustFlag(j)|, k, j, 0, 0), args, width, prec, c, rest);
  }

  lemma SpelledParts(j: Just, width: nat, prec: nat, c: char, rest: string)
    ensures Spelled(j, width, prec, c) + rest == JustFlag(j) + (CountText(width) + (PrecisionText(prec) + ([c] + rest)))
    ensures |Spelled(j, width, prec, c)| == |JustFlag(j)| + |CountText(width)| + |PrecisionText(prec)| + 1
  {
    hide JustFlag, CountText, PrecisionText;
  }

  lemma NoCount(n: nat)
    ensures n == 0 ==> CountText(n) == ""
  {
  }

  lemma TailEnds(prec: nat, c: char, rest: string)
    requires Stops(c)
    ensures Ends(PrecisionText(prec) + ([c] + rest), 10)
  {
    StopsIsOneOf(c);
  }

  /** A spelled integer directive contributes its numeral, cut and padded, and takes one argument. */
  lemma IntegerDirective(fmt: string, i: nat, args: seq<Arg>, k: nat, j: Just, width: nat, prec: nat,
                         c: char, rest: string)
    requires i <= |fmt| && fmt[i..] == Spelled(j, width, prec, c) + rest
    requires width < 0x8000_0000 && prec < 0x8000_0000 && OneOf("dobxXu", c)
    requires k < |args| && args[k].Int?
    ensures var r := ReadDirective(fmt, i, args, k);
      r.Some? && r.value.next == |fmt| - |rest| && r.value.used == k + 1 && r.value.lead == ""
      && Field(r.value) == Justify(Cut(IntText(c, args[k].v), prec), width, j)
  {
    hide ReadFlags, Spelled, IntText;
    SpelledRead(fmt, i, args, k, j, width, prec, c, rest);
    assert fmt[i + |Spelled(j, width, prec, c)| - 1] == c by { LastChar(fmt, i, j, width, prec, c, rest); }
  }

  lemma LastChar(fmt: string, i: nat, j: Just, width: nat, prec: nat, c: char, rest: string)
    requires i <= |fmt| && fmt[i..] == Spelled(j, width, prec, c) + rest
    ensures var e := i + |Spelled(j, width, prec, c)|; 0 < e <= |fmt| && fmt[e-1] == c && |rest| == |fmt| - e
  {
    var s := Spelled(j, width, prec, c);
    assert fmt[i+|s|-1] == fmt[i..][|s|-1] == s[|s|-1];
  }

  // ---------- whole formats ----------

  /** A width or precision: written out, or a star that takes it from the arguments. */
  datatype Count = Fixed(n: nat) | Star

  /** A piece of a format: literal text, or a directive as it is spelled, with `longs` letters `l` in front of
      its conversion. */
  datatype Piece =
    | Literal(text: string)
    | Spec(just: Just, width: Count, prec: Count, longs: nat, conv: char)

  function WidthText(w: Count): string {
    if w.Star? then "*" else CountText(w.n)
  }

  function PrecText(p: Count): string {
    if p.Star? then ".*" else PrecisionText(p.n)
  }

  function Ending(p: Piece): string
    requires p.Spec?
  {
    Repeat('l', p.longs) + [p.conv]
  }

  function SpecText(p: Piece): string
    requires p.Spec?
  {
    JustFlag(p.just) + WidthText(p.width) + PrecText(p.prec) + Ending(p)
  }

  function PieceFormat(p: Piece): string {
    if p.Literal? then p.text else "%" + SpecText(p)
  }

  function Stars(w: Count): nat {
    if w.Star? then 1 else 0
  }

  /** How many arguments a piece takes. */
  function Takes(p: Piece): nat {
    if p.Literal? then 0 else Stars(p.width) + Stars(p.prec) + if p.conv != '%' then 1 else 0
  }

  /** The count is one an int holds, or the argument at `k` is. */
  predicate CountOk(w: Count, args: seq<Arg>, k: nat) {
    if w.Star? then k < |args| && args[k].Int? else w.n < 0x8000_0000
  }

  function CountOf(w: Count, args: seq<Arg>, k: nat): int
    requires CountOk(w, args, k)
  {
    if w.Star? then args[k].v else w.n
  }

  /** The piece is well spelled, and the arguments it takes, from `k` on, are of their kinds. */
  predicate PieceOk(p: Piece, args: seq<Arg>, k: nat) {
    match p
    case Literal(text) => '%' !in text
    case Spec(just, width, prec, longs, conv) =>
      var (k1, k2) := (k + Stars(width), k + Stars(width) + Stars(prec));
      && Converts(conv) && longs <= 2 && (longs > 0 ==> OneOf("dobpxXu", conv))
      && CountOk(width, args, k) && CountOk(prec, args, k1) && 0 <= CountOf(prec, args, k1)
      && (conv != '%' ==> k2 < |args| && (conv == 's' <==> !args[k2].Int?))
  }

  /** The text of the argument of a conversion, before it is cut and padded. */
  function ArgText(conv: char, arg: Arg): string
    requires Converts(conv) && conv != '%' && (conv == 's' <==> !arg.Int?)
  {
    match arg
    case Str(s) => s
    case Null => "(null)"
    case Int(v) => if conv == 'c' then CharText(v) else ConvertsInt(conv); IntText(conv, v)
  }

  lemma ConvertsInt(c: char)
    requires Converts(c)
    ensures c != '%' && c != 's' && c != 'c' ==> OneOf("dobpxXu", c)
  {
  }

  /** What a piece contributes. A percent sign is never cut or padded: a width behind it pads nothing to
      that width. A pointer is `0x` and at least eight digits, whatever its flags and width. */
  function PieceText(p: Piece, args: seq<Arg>, k: nat): string
    requires PieceOk(p, args, k)
  {
    match p
    case Literal(text) => text
    case Spec(just, width, prec, longs, conv) =>
      var (k1, k2) := (k + Stars(width), k + Stars(width) + Stars(prec));
      var (w, n) := (CountOf(width, args, k), CountOf(prec, args, k1));
      if conv == '%' then "%" + Justify("", w, just)
      else if conv == 'p' then "0x" + Justify(Cut(ArgText(conv, args[k2]), n), 8, RJust0)
      else Justify(Cut(ArgText(conv, args[k2]), n), w, just)
  }

  lemma StarStep(fmt: string, f: Flags, haddot: bool, args: seq<Arg>)
    requires f.at < |fmt| && fmt[f.at] == '*' && f.used < |args| && args[f.used].Int?
    ensures var (n, g) := (args[f.used].v, f.(at := f.at + 1, used := f.used + 1));
      ReadFlags(fmt, f, haddot, args) == ReadFlags(fmt, if haddot then g.(trunc := n) else g.(width := n), haddot, args)
  {
    hide DigitsEnd, Value, OneOf;
    StarIsFlag();
  }

  lemma StarIsFlag()
    ensures !OneOf("dobpxXulscefg%", '*')
  {
  }

  lemma WidthRead(fmt: string, f: Flags, args: seq<Arg>, w: Count, rest: string)
    requires f.at <= |fmt| && fmt[f.at..] == WidthText(w) + rest && Ends(rest, 10) && f.width == 0
    requires CountOk(w, args, f.used)
    ensures var e := f.at + |WidthText(w)|;
      && e <= |fmt| && fmt[e..] == rest
      && ReadFlags(fmt, f, false, args)
         == ReadFlags(fmt, f.(at := e, used := f.used + Stars(w), width := CountOf(w, args, f.used)), false, args)
  {
    hide ReadFlags, CountText, Ends;
    SuffixAfter(fmt, f.at, WidthText(w), rest);
    if w.Star? {
      StarStep(fmt, f, false, args);
    } else {
      CountRead(fmt, f, false, args, w.n, rest);
      NoCount(w.n);
      assert w.n == 0 ==> f == f.(at := f.at, used := f.used + 0, width := 0);
    }
  }

  lemma PrecStarRead(fmt: string, f: Flags, args: seq<Arg>, c: char, rest: string)
    requires f.at <= |fmt| && fmt[f.at..] == PrecText(Star) + ([c] + rest) && Stops(c)
    requires f.used < |args| && args[f.used].Int?
    ensures ReadFlags(fmt, f, false, args)
         == Some(f.(at := f.at + |PrecText(Star)|, used := f.used + 1, trunc := args[f.used].v))
  {
    hide ReadFlags, Stops, PrecText;
    StarText([c] + rest);
    PointRead(fmt, f, args, "*" + ([c] + rest));
    StarThenStop(fmt, f.(at := f.at + 1), args, c, rest);
  }

  lemma StarThenStop(fmt: string, f: Flags, args: seq<Arg>, c: char, rest: string)
    requires f.at <= |fmt| && fmt[f.at..] == "*" + ([c] + rest) && Stops(c)
    requires f.used < |args| && args[f.used].Int?
    ensures ReadFlags(fmt, f, true, args) == Some(f.(at := f.at + 1, used := f.used + 1, trunc := args[f.used].v))
  {
    hide ReadFlags, Stops;
    SuffixAfter(fmt, f.at, "*", [c] + rest);
    StarStep(fmt, f, true, args);
    ConversionRead(fmt, f.(at := f.at + 1, used := f.used + 1, trunc := args[f.used].v), true, args, c, rest);
  }

  lemma StarText(tail: string)
    ensures PrecText(Star) + tail == "." + ("*" + tail) && |PrecText(Star)| == 2
  {
    assert ".*" + tail == "." + ("*" + tail);
  }

  lemma PrecRead(fmt: string, f: Flags, args: seq<Arg>, p: Count, c: char, rest: string)
    requires f.at <= |fmt| && fmt[f.at..] == PrecText(p) + ([c] + rest) && f.trunc == 0 && Stops(c)
    requires CountOk(p, args, f.used)
    ensures ReadFlags(fmt, f, false, args)
         == Some(f.(at := f.at + |PrecText(p)|, used := f.used + Stars(p), trunc := CountOf(p, args, f.used)))
  {
    hide ReadFlags, PrecisionText, Stops;
    if p.Star? {
      hide PrecText;
      assert p == Star;
      PrecStarRead(fmt, f, args, c, rest);
    } else {
      PrecisionRead(fmt, f, args, p.n, c, rest);
    }
  }

  lemma PrecTextEnds(p: Count, c: char, rest: string)
    requires Stops(c)
    ensures Ends(PrecText(p) + ([c] + rest), 10)
  {
    hide CountText, Stops;
    if p.Fixed? {
      TailEnds(p.n, c, rest);
    }
  }

  lemma EndingStops(p: Piece, rest: string) returns (c: char, more: string)
    requires p.Spec? && Converts(p.conv)
    ensures Stops(c) && Ending(p) + rest == [c] + more
  {
    hide OneOf;
    ConvertsStopsToo(p.conv);
    c, more := Ending(p)[0], Ending(p)[1..] + rest;
  }

  lemma ConvertsStopsToo(c: char)
    ensures Stops('l') && (Converts(c) ==> Stops(c))
  {
    if Converts(c) {
      ConvertsStops(c);
    }
    assert OneOf("dobpxXulsc%", 'l') by { assert "dobpxXulsc%"[7] == 'l'; }
  }

  lemma SpecParts(p: Piece, rest: string, c: char, more: string)
    requires p.Spec? && Ending(p) + rest == [c] + more
    ensures SpecText(p) + rest == JustFlag(p.just) + (WidthText(p.width) + (PrecText(p.prec) + ([c] + more)))
    ensures |SpecText(p)| == |JustFlag(p.just)| + |WidthText(p.width)| + |PrecText(p.prec)| + |Ending(p)|
  {
    hide JustFlag, WidthText, PrecText, Ending;
    var (a, b, d, e) := (JustFlag(p.just), WidthText(p.width), PrecText(p.prec), Ending(p));
    assert a + b + d + e + rest == a + (b + (d + (e + rest)));
  }

  /** Flag and width. */
  lemma FrontRead(fmt: string, i: nat, args: seq<Arg>, k: nat, just: Just, w: Count, tail: string) returns (f: Flags)
    requires i <= |fmt| && fmt[i..] == JustFlag(just) + (WidthText(w) + tail) && Ends(tail, 10)
    requires CountOk(w, args, k)
    ensures f == Flags(i + |JustFlag(just)| + |WidthText(w)|, k + Stars(w), just, CountOf(w, args, k), 0)
    ensures f.at <= |fmt| && fmt[f.at..] == tail
    ensures ReadFlags(fmt, Flags(i, k, RJust, 0, 0), false, args) == ReadFlags(fmt, f, false, args)
  {
    hide ReadFlags, WidthText, JustFlag, CountOk, CountOf, Ends;
    FlagRead(fmt, Flags(i, k, RJust, 0, 0), args, just, WidthText(w) + tail);
    var g := Flags(i + |JustFlag(just)|, k, just, 0, 0);
    WidthRead(fmt, g, args, w, tail);
    f := Flags(g.at + |WidthText(w)|, k + Stars(w), just, CountOf(w, args, k), 0);
  }

  /** Flag, width and precision, up to the character `c` at which the flags end. */
  lemma CountsSpelled(fmt: string, i: nat, args: seq<Arg>, k: nat, just: Just, w: Count, n: Count, c: char,
                      more: string)
    returns (e: nat)
    requires i <= |fmt| && fmt[i..] == JustFlag(just) + (WidthText(w) + (PrecText(n) + ([c] + more))) && Stops(c)
    requires CountOk(w, args, k) && CountOk(n, args, k + Stars(w))
    ensures i <= e <= |fmt| && fmt[e..] == [c] + more
    ensures ReadFlags(fmt, Flags(i, k, RJust, 0, 0), false, args)
         == Some(Flags(e, k + Stars(w) + Stars(n), just, CountOf(w, args, k), CountOf(n, args, k + Stars(w))))
  {
    hide ReadFlags, WidthText, PrecText, JustFlag, Stops, CountOk, CountOf, Ends, Stars;
    PrecTextEnds(n, c, more);
    var f := FrontRead(fmt, i, args, k, just, w, PrecText(n) + ([c] + more));
    PrecRead(fmt, f, args, n, c, more);
    SuffixAfter(fmt, f.at, PrecText(n), [c] + more);
    e := f.at + |PrecText(n)|;
  }

  /** Flag, counts and stars of a directive are read as they are spelled, up to the conversion. */
  lemma SpecRead(fmt: string, i: nat, args: seq<Arg>, k: nat, p: Piece, rest: string) returns (e: nat)
    requires p.Spec? && PieceOk(p, args, k) && i <= |fmt| && fmt[i..] == SpecText(p) + rest
    ensures i <= e <= |fmt| && fmt[e..] == Ending(p) + rest
    ensures ReadFlags(fmt, Flags(i, k, RJust, 0, 0), false, args)
         == Some(Flags(e, k + Stars(p.width) + Stars(p.prec), p.just, CountOf(p.width, args, k),
                       CountOf(p.prec, args, k + Stars(p.width))))
  {
    hide ReadFlags, Ending, Converts, OneOf, SpecText, CountOf, CountOk, Stops;
    var c, more := EndingStops(p, rest);
    SpecParts(p, rest, c, more);
    e := CountsSpelled(fmt, i, args, k, p.just, p.width, p.prec, c, more);
  }

  /** Every spelled directive is read in full, takes its arguments and contributes its text. */
  lemma SpelledDirective(fmt: string, i: nat, args: seq<Arg>, k: nat, p: Piece, rest: string)
    requires p.Spec? && PieceOk(p, args, k)
    requires i <= |fmt| && fmt[i..] == SpecText(p) + rest
    ensures var r := ReadDirective(fmt, i, args, k);
      r.Some? && r.value.next == |fmt| - |rest| && r.value.used == k + Takes(p)
      && r.value.lead + Field(r.value) == PieceText(p, args, k)
  {
    hide ReadFlags, SpecText, Convert, PieceText, Field, Converts, Ending;
    var e := SpecRead(fmt, i, args, k, p, rest);
    var k1 := k + Stars(p.width);
    var f := Flags(e, k1 + Stars(p.prec), p.just, CountOf(p.width, args, k), CountOf(p.prec, args, k1));
    ConversionTaken(fmt, f, args, k, p, rest);
  }

  lemma ConversionTaken(fmt: string, f: Flags, args: seq<Arg>, k: nat, p: Piece, rest: string)
    requires p.Spec? && PieceOk(p, args, k) && f.at <= |fmt| && fmt[f.at..] == Ending(p) + rest
    requires f.used == k + Stars(p.width) + Stars(p.prec) && f.just == p.just
    requires f.width == CountOf(p.width, args, k) && f.trunc == CountOf(p.prec, args, k + Stars(p.width))
    ensures f.at < |fmt|
    ensures var r := Convert(fmt, f, args);
      r.Some? && r.value.next == |fmt| - |rest| && r.value.used == k + Takes(p)
      && r.value.lead + Field(r.value) == PieceText(p, args, k)
  {
    hide IntText, Justify, CharText, CountOf, CountOk;
    EndingFound(fmt, f.at, p, rest);
    var r := Convert(fmt, f, args);
    assert "" + Field(r.value) == Field(r.value);
  }

  lemma EndingFound(fmt: string, at: nat, p: Piece, rest: string)
    requires p.Spec? && p.longs <= 2 && p.conv != 'l' && at <= |fmt| && fmt[at..] == Ending(p) + rest
    ensures at < |fmt| && SkipLong(fmt, at) == at + p.longs && At(fmt, at + p.longs) == p.conv
    ensures at + p.longs + 1 == |fmt| - |rest| && fmt[at] == if p.longs == 0 then p.conv else 'l'
  {
    assert forall k :: 0 <= k <= p.longs ==> fmt[at+k] == fmt[at..][k] == Ending(p)[k];
  }

  lemma {:induction false} LiteralRendered(fmt: string, i: nat, args: seq<Arg>, k: nat, lit: string, rest: string)
    requires i <= |fmt| && fmt[i..] == lit + rest && '%' !in lit
    requires Render(fmt, |fmt| - |rest|, args, k).Some?
    ensures Render(fmt, i, args, k) == Some(lit + Render(fmt, |fmt| - |rest|, args, k).value)
    decreases |lit|
  {
    hide ReadDirective, Field;
    if lit != "" {
      assert fmt[i] == fmt[i..][0] == lit[0];
      assert fmt[i+1..] == fmt[i..][1..] == lit[1..] + rest;
      LiteralRendered(fmt, i + 1, args, k, lit[1..], rest);
      assert [lit[0]] + (lit[1..] + Render(fmt, |fmt| - |rest|, args, k).value)
          == lit + Render(fmt, |fmt| - |rest|, args, k).value;
    } else {
      assert "" + Render(fmt, i, args, k).value == Render(fmt, i, args, k).value;
    }
  }

  function FormatOf(pieces: seq<Piece>): string {
    if pieces == [] then "" else PieceFormat(pieces[0]) + FormatOf(pieces[1..])
  }

  predicate PiecesOk(pieces: seq<Piece>, args: seq<Arg>, k: nat) {
    pieces == [] || (PieceOk(pieces[0], args, k) && PiecesOk(pieces[1..], args, k + Takes(pieces[0])))
  }

  function TextOf(pieces: seq<Piece>, args: seq<Arg>, k: nat): string
    requires PiecesOk(pieces, args, k)
  {
    if pieces == [] then "" else PieceText(pieces[0], args, k) + TextOf(pieces[1..], args, k + Takes(pieces[0]))
  }

  /** The output is the concatenation of the literals and of the texts of the directives, each directive
      with its own argument. */
  lemma {:induction false} PiecesRendered(fmt: string, i: nat, args: seq<Arg>, k: nat, pieces: seq<Piece>)
    requires i <= |fmt| && fmt[i..] == FormatOf(pieces) && PiecesOk(pieces, args, k)
    ensures Render(fmt, i, args, k) == Some(TextOf(pieces, args, k))
    decreases |pieces|
  {
    hide Render, PieceOk, PieceText, PieceFormat;
    if pieces != [] {
      var p, rest := pieces[0], FormatOf(pieces[1..]);
      var next, used := |fmt| - |rest|, k + Takes(p);
      SuffixAfter(fmt, i, PieceFormat(p), rest);
      PiecesRendered(fmt, next, args, used, pieces[1..]);
      PieceRendered(fmt, i, args, k, p, rest);
    } else {
      NothingRendered(fmt, i, args, k);
    }
  }

  lemma NothingRendered(fmt: string, i: nat, args: seq<Arg>, k: nat)
    requires i <= |fmt| && fmt[i..] == ""
    ensures Render(fmt, i, args, k) == Some("")
  {
  }

  lemma PieceRendered(fmt: string, i: nat, args: seq<Arg>, k: nat, p: Piece, rest: string)
    requires i <= |fmt| && fmt[i..] == PieceFormat(p) + rest && PieceOk(p, args, k)
    requires Render(fmt, |fmt| - |rest|, args, k + Takes(p)).Some?
    ensures Render(fmt, i, args, k)
         == Some(PieceText(p, args, k) + Render(fmt, |fmt| - |rest|, args, k + Takes(p)).value)
  {
    hide Render, ReadDirective, Field, SpecText, ArgText, Converts, PieceText;
    if p.Literal? {
      LiteralTakes(p, args, k);
      LiteralRendered(fmt, i, args, k, p.text, rest);
    } else {
      hide PieceOk;
      PercentPassed(fmt, i, SpecText(p), rest);
      SpelledDirective(fmt, i + 1, args, k, p, rest);
      PercentRendered(fmt, i, args, k);
    }
  }

  lemma LiteralTakes(p: Piece, args: seq<Arg>, k: nat)
    requires p.Literal? && PieceOk(p, args, k)
    ensures PieceText(p, args, k) == p.text == PieceFormat(p) && Takes(p) == 0
  {
  }

  lemma PercentPassed(fmt: string, i: nat, spec: string, rest: string)
    requires i <= |fmt| && fmt[i..] == "%" + spec + rest
    ensures i < |fmt| && fmt[i] == '%' && fmt[i+1..] == spec + rest
  {
    assert fmt[i] == fmt[i..][0];
    assert fmt[i+1..] == fmt[i..][1..] == spec + rest;
  }

  lemma PercentRendered(fmt: string, i: nat, args: seq<Arg>, k: nat)
    requires i < |fmt| && fmt[i] == '%' && ReadDirective(fmt, i + 1, args, k).Some?
    requires var d := ReadDirective(fmt, i + 1, args, k).value; Render(fmt, d.next, args, d.used).Some?
    ensures var d := ReadDirective(fmt, i + 1, args, k).value;
      Render(fmt, i, args, k) == Some(d.lead + Field(d) + Render(fmt, d.next, args, d.used).value)
  {
    hide ReadDirective, Field;
  }

  // ---------- printed integers are read back ----------

  /** A blank-padded `%d` is what the signed printer of sscanf.c writes. */
  lemma DecimalIsPadded(v: int, width: nat)
    requires -SIGN_BIT <= v < SIGN_BIT
    ensures Justify(IntText('d', v), width, RJust) == Padded(v, 10, false, ' ', width)
  {
    hide Numeral;
    assert Word(v) == if v < 0 then WORD + v else v;
  }

  /** `%d` in a field of any width is read back by the signed parser of sscanf.c, which stops right behind
      the field, and by strtoul in base 10. */
  lemma DecimalReadsBack(v: int, width: nat, tail: string)
    requires -SIGN_BIT <= v < SIGN_BIT && Ends(tail, 10)
    ensures var field := Justify(IntText('d', v), width, RJust);
      && ReadSigned(field + tail, 10) == Some(Read(|field|, v))
      && Strtoul.StrtoulValue(field, 10) == Word(v)
  {
    hide ReadSigned, Strtoul.StrtoulValue, Numeral;
    DecimalIsPadded(v, width);
    SignedRoundTrip(v, 10, false, width, tail);
    var n := PadWidth(width, |IntText('d', v)|);
    StrtoulReadsSigned(Word(v), n);
    assert Justify(IntText('d', v), width, RJust) == Repeat(' ', n) + BtoaText(Word(v), -10);
  }

  lemma HexIsPadded(v: nat, upper: bool, zeros: bool, width: nat)
    requires v < WORD
    ensures Justify(IntText(if upper then 'X' else 'x', v), width, if zeros then RJust0 else RJust)
         == Padded(v, 16, upper, if zeros then '0' else ' ', width)
  {
    hide Numeral, Repeat;
    HexText(v, upper);
    PaddedParts(v, 16, upper, if zeros then '0' else ' ', width);
    var t := Cased(Numeral(v, 16), upper);
    assert Repeat(' ', 0) + t == t && Repeat('0', 0) + t == t by { NoPadding(t); }
    var n := PadWidth(width, |t|);
    assert Repeat(' ', n) + "" + t == Repeat(' ', n) + t && Repeat('0', n) + "" + t == Repeat('0', n) + t;
  }

  lemma HexText(v: nat, upper: bool)
    requires v < WORD
    ensures IntText(if upper then 'X' else 'x', v) == Cased(Numeral(v, 16), upper)
  {
    hide Numeral;
    assert Word(v) == v;
  }

  /** `%x` and `%0x` in a field of any width are read back by the unsigned hexadecimal parser. */
  lemma HexReadsBack(v: nat, upper: bool, zeros: bool, width: nat, tail: string)
    requires v < WORD && Ends(tail, 16) && (tail == "" || tail[0] != 'x')
    ensures var field := Justify(IntText(if upper then 'X' else 'x', v), width, if zeros then RJust0 else RJust);
      ReadUnsigned(field + tail, 16) == Some(Read(|field|, v))
  {
    hide ReadUnsigned, Numeral, Justify, IntText, Padded;
    HexIsPadded(v, upper, zeros, width);
    UnsignedRoundTrip(v, 16, upper, if zeros then '0' else ' ', width, tail);
  }

  /** Zero padding goes in front of the minus sign. */
  lemma ZerosBeforeMinus(v: int, width: nat)
    requires v < 0 && Magnitude(v) < SIGN_BIT && width > 1 + |Numeral(Magnitude(v), 10)|
    ensures var m := Numeral(Magnitude(v), 10);
      Justify(IntText('d', v), width, RJust0) == Repeat('0', width - 1 - |m|) + "-" + m
  {
    hide Numeral;
    var m := Numeral(Magnitude(v), 10);
    assert Word(v) == WORD + v && IntText('d', v) == "-" + m;
    assert Repeat('0', width - 1 - |m|) + ("-" + m) == Repeat('0', width - 1 - |m|) + "-" + m;
  }
}
