/** How far `sscanf` undoes `vsprintf` with one and the same format of integer directives: it converts every
    value that was printed, but all of them go to the first object, so the caller has them back only from a
    format with one directive. */
module ScanRoundTrip {
  import opened Arithmetic
  import opened Wrappers
  import opened CStrings
  import opened Numerals
  import opened BoundedNumerals
  import opened Format
  import opened Vsprintf
  import opened FormatMeaning
  import opened Sscanf

  /** An integer directive with its value, and the literal text behind it. */
  datatype Item = Item(conv: char, zeros: bool, width: nat, value: int, sep: string)

  function JustOf(it: Item): Just {
    if it.zeros then RJust0 else RJust
  }

  function SpellItem(it: Item): string {
    Spelled(JustOf(it), it.width, 0, it.conv)
  }

  predicate PlainText(s: string) {
    Text(s) && '%' !in s
  }

  function Radix(conv: char): (r: nat)
    ensures r == 10 || r == 16
  {
    if conv == 'd' || conv == 'u' then 10 else 16
  }

  /** The literal behind a directive ends the numeral; after a lone hexadecimal zero it does not start
      with an `x`, which would make it a prefix. */
  predicate EndsNumeral(it: Item, sep: string) {
    && Ends(sep, Radix(it.conv))
    && (Radix(it.conv) == 16 && it.value == 0 && (!it.zeros || it.width <= 1) && sep != "" ==> sep[0] != 'x')
  }

  predicate ItemOk(it: Item) {
    && it.width < 0x8000_0000 && PlainText(it.sep) && EndsNumeral(it, it.sep)
    && match it.conv
       case 'd' => !it.zeros && -SIGN_BIT <= it.value < SIGN_BIT
       case 'u' => 0 <= it.value < WORD
       case 'x' => 0 <= it.value < WORD
       case 'X' => 0 <= it.value < WORD
       case _ => false
  }

  /** A literal stands between any two directives. */
  predicate ItemsOk(items: seq<Item>) {
    forall i :: 0 <= i < |items| ==> ItemOk(items[i]) && (i + 1 < |items| ==> items[i].sep != "")
  }

  function ItemsFormat(items: seq<Item>): string {
    if items == [] then "" else "%" + SpellItem(items[0]) + items[0].sep + ItemsFormat(items[1..])
  }

  function ArgsOf(items: seq<Item>): seq<Arg> {
    seq(|items|, i requires 0 <= i < |items| => Int(items[i].value))
  }

  function ValuesOf(items: seq<Item>): seq<Stored> {
    seq(|items|, i requires 0 <= i < |items| => Number(items[i].value))
  }

  /** The numeral with its zero padding, and the blanks in front of it. */
  function Core(it: Item): string
    requires ItemOk(it)
  {
    var t := IntText(it.conv, it.value);
    if it.zeros then Repeat('0', PadWidth(it.width, |t|)) + t else t
  }

  function Indent(it: Item): nat
    requires ItemOk(it)
  {
    if it.zeros then 0 else PadWidth(it.width, |IntText(it.conv, it.value)|)
  }

  function Printed(items: seq<Item>): string
    requires ItemsOk(items)
  {
    if items == [] then ""
    else Repeat(' ', Indent(items[0])) + Core(items[0]) + items[0].sep + Printed(items[1..])
  }

  // ---------- printing ----------

  lemma ItemField(it: Item)
    requires ItemOk(it)
    ensures Justify(Cut(IntText(it.conv, it.value), 0), it.width, JustOf(it)) == Repeat(' ', Indent(it)) + Core(it)
  {
    hide IntText;
    var t := IntText(it.conv, it.value);
    assert Repeat(' ', 0) + Core(it) == Core(it);
  }

  lemma ItemDirective(fmt: string, i: nat, args: seq<Arg>, k: nat, it: Item, rest: string)
    requires i <= |fmt| && fmt[i..] == SpellItem(it) + rest && ItemOk(it)
    requires k < |args| && args[k] == Int(it.value)
    ensures var r := ReadDirective(fmt, i, args, k);
      r.Some? && r.value.next == |fmt| - |rest| && r.value.used == k + 1
      && r.value.lead + Field(r.value) == Repeat(' ', Indent(it)) + Core(it)
  {
    hide Spelled, ReadDirective, Field, Core, Indent, IntText, EndsNumeral;
    IntegerDirective(fmt, i, args, k, JustOf(it), it.width, 0, it.conv, rest);
    ItemField(it);
    var f := Repeat(' ', Indent(it)) + Core(it);
    assert "" + f == f;
  }

  lemma ItemRendered(fmt: string, i: nat, args: seq<Arg>, k: nat, it: Item, rest: string)
    requires i <= |fmt| && fmt[i..] == "%" + SpellItem(it) + it.sep + rest && ItemOk(it)
    requires k < |args| && args[k] == Int(it.value)
    requires Render(fmt, |fmt| - |rest|, args, k + 1).Some?
    ensures Render(fmt, i, args, k)
         == Some(Repeat(' ', Indent(it)) + Core(it) + it.sep + Render(fmt, |fmt| - |rest|, args, k + 1).value)
  {
    hide Spelled, ReadDirective, Field, Core, Indent, SpellItem, ItemOk;
    SepIsLiteral(it);
    var last := Render(fmt, |fmt| - |rest|, args, k + 1).value;
    assert fmt[i] == fmt[i..][0];
    assert fmt[i+1..] == fmt[i..][1..] == SpellItem(it) + (it.sep + rest);
    ItemDirective(fmt, i + 1, args, k, it, it.sep + rest);
    var next := |fmt| - |it.sep + rest|;
    assert fmt[next..] == fmt[i+1..][|SpellItem(it)|..] == it.sep + rest;
    LiteralRendered(fmt, next, args, k + 1, it.sep, rest);
    assert Repeat(' ', Indent(it)) + Core(it) + (it.sep + last) == Repeat(' ', Indent(it)) + Core(it) + it.sep + last;
  }

  lemma SepIsLiteral(it: Item)
    requires ItemOk(it)
    ensures PlainText(it.sep)
  {
  }

  lemma {:induction false} ItemsRendered(fmt: string, i: nat, args: seq<Arg>, k: nat, items: seq<Item>)
    requires i <= |fmt| && k <= |args| && fmt[i..] == ItemsFormat(items) && args[k..] == ArgsOf(items) && ItemsOk(items)
    ensures Render(fmt, i, args, k) == Some(Printed(items))
    decreases |items|
  {
    hide ItemOk, SpellItem, Core, Indent, ReadDirective;
    if items != [] {
      var it, rest := items[0], ItemsFormat(items[1..]);
      assert args[k] == args[k..][0];
      assert args[k+1..] == args[k..][1..] == ArgsOf(items[1..]);
      var next := |fmt| - |rest|;
      assert fmt[next..] == rest by {
        assert fmt[i..][|"%" + SpellItem(it) + it.sep|..] == rest;
      }
      ItemsRendered(fmt, next, args, k + 1, items[1..]);
      ItemRendered(fmt, i, args, k, it, rest);
    }
  }

  // ---------- scanning ----------

  /** The digits `sscanf` takes for a width. */
  function Digits(it: Item): string {
    (if it.zeros then "0" else "") + CountText(it.width)
  }

  lemma SpellingIsDigits(it: Item)
    requires ItemOk(it)
    ensures SpellItem(it) == Digits(it) + [it.conv] && AllDigits(Digits(it), 10)
    ensures !IsDigit(it.conv, 10) && !IsSpace(it.conv) && it.conv != '%'
  {
    hide EndsNumeral;
    assert OneOf("duxX", it.conv);
    if it.width > 0 {
      CountFacts(it.width, "");
    }
  }

  lemma ConversionFound(it: Item, rest: string)
    requires ItemOk(it)
    ensures var fmt := SpellItem(it) + rest;
      ReadConversion(fmt).0 == it.conv && DigitsEnd(fmt, 0, 10) == |Digits(it)| && At(fmt, 0) != '%'
  {
    hide ItemOk, SpellItem, Digits, DigitsEnd, Value, Wrapped;
    SpellingIsDigits(it);
    var d, tail := Digits(it), [it.conv] + rest;
    var fmt := SpellItem(it) + rest;
    assert fmt == d + tail && fmt[0..] == fmt;
    DigitsFound(fmt, 0, d, tail, 10);
    assert IsDigit(fmt[0], 10) || fmt[0] == it.conv;
    assert SkipSpaces(fmt, 0) == 0;
    assert fmt[|d|] == tail[0] == it.conv;
  }

  /** The numeral behind any number of blanks is read as its value. */
  lemma CoreRead(it: Item, n: nat, tail: string)
    requires ItemOk(it) && EndsNumeral(it, tail) && (it.zeros ==> n == 0)
    ensures var s := Repeat(' ', n) + Core(it) + tail;
      var r := if it.conv == 'd' then ReadSigned(s, 10) else ReadUnsigned(s, Radix(it.conv));
      r == Some(Read(n + |Core(it)|, it.value))
  {
    hide ReadSigned, ReadUnsigned, IntText, Numeral, Padded;
    var t := IntText(it.conv, it.value);
    var width := if it.zeros then it.width else n + |t|;
    CoreIsPadded(it, n);
    if it.conv == 'd' {
      SignedRoundTrip(it.value, 10, false, width, tail);
    } else {
      UnsignedRoundTrip(it.value, Radix(it.conv), it.conv == 'X', if it.zeros then '0' else ' ', width, tail);
    }
  }

  lemma CoreIsPadded(it: Item, n: nat)
    requires ItemOk(it) && (it.zeros ==> n == 0)
    ensures Repeat(' ', n) + Core(it)
         == Padded(it.value, Radix(it.conv), it.conv == 'X',
                   if it.zeros then '0' else ' ', if it.zeros then it.width else n + |IntText(it.conv, it.value)|)
  {
    hide Plain, EndsNumeral, IntText;
    TextIsPlain(it);
    assert Repeat(' ', 0) + Core(it) == Core(it);
  }

  lemma ItemParsed(it: Item, n: nat, rest: string, tail: string)
    requires ItemOk(it) && EndsNumeral(it, tail) && (it.zeros ==> n == 0)
    ensures ParseSpec(SpellItem(it) + rest, Repeat(' ', n) + Core(it) + tail)
         == Parsed(n + |Core(it)|, [Number(it.value)])
  {
    hide ReadSigned, ReadUnsigned, Core, SpellItem, EndsNumeral, ReadConversion, Digits, DigitsEnd;
    ConversionFound(it, rest);
    CoreRead(it, n, tail);
  }

  /** One directive consumes its blanks and its numeral, stores the value and counts one. */
  lemma DirectiveScanned(it: Item, n: nat, rest: string, tail: string)
    requires ItemOk(it) && EndsNumeral(it, tail) && (it.zeros ==> n == 0)
    requires Text("%" + SpellItem(it) + rest) && Text(rest)
    ensures Core(it) != "" && ScanSpec("%" + SpellItem(it) + rest, Repeat(' ', n) + Core(it) + tail)
         == Joined(1, [Number(it.value)], ScanSpec(rest, tail))
  {
    hide ParseSpec, ItemOk, Core, SpellItem, Digits, DigitsEnd, EndsNumeral;
    CoreStarts(it);
    ItemParsed(it, n, rest, tail);
    ConversionFound(it, rest);
    SpellingIsDigits(it);
    var fmt, s := "%" + SpellItem(it) + rest, Repeat(' ', n) + Core(it) + tail;
    assert fmt[1..] == SpellItem(it) + rest;
    assert fmt[|Digits(it)|+2..] == rest;
    assert s[n+|Core(it)|..] == tail;
    assert At(fmt, 1) == At(fmt[1..], 0);
  }

  lemma PlainStarts(val: int, base: nat, upper: bool)
    requires base == 10 || base == 16
    ensures Plain(val, base, upper) != "" && !IsSpace(Plain(val, base, upper)[0])
  {
    hide Numeral, Value, AllDigits;
    CasedNumeral(Magnitude(val), base, upper);
  }

  lemma TextIsPlain(it: Item)
    requires ItemOk(it)
    ensures IntText(it.conv, it.value) == Plain(it.value, Radix(it.conv), it.conv == 'X')
  {
    hide Numeral, EndsNumeral;
  }

  lemma CoreStarts(it: Item)
    requires ItemOk(it)
    ensures Core(it) != "" && !IsSpace(Core(it)[0])
  {
    hide EndsNumeral, IntText, Plain, ItemOk;
    TextIsPlain(it);
    PlainStarts(it.value, Radix(it.conv), it.conv == 'X');
  }

  /** The input without the blanks in front. */
  function Trim(s: string): string {
    s[SkipSpaces(s, 0)..]
  }

  lemma TrimStep(s: string)
    requires s != ""
    ensures if IsSpace(s[0]) then Trim(s) == Trim(s[1..]) else Trim(s) == s
    ensures Trim(Trim(s)) == Trim(s)
  {
    SkipShift(s, 1);
    var n := SkipSpaces(s, 0);
    assert SkipSpaces(s[n..], 0) == 0;
  }

  lemma {:induction false} SkipShift(s: string, i: nat)
    requires i <= |s|
    ensures SkipSpaces(s, i) == i + SkipSpaces(s[i..], 0)
  {
    var n := SkipSpaces(s[i..], 0);
    assert forall k :: 0 <= k < |s| - i ==> s[i..][k] == s[i+k];
    SkipUnique(s, i, i + n);
  }

  lemma {:induction false} SkipUnique(s: string, i: nat, r: nat)
    requires i <= r <= |s| && (forall k :: i <= k < r ==> IsSpace(s[k])) && (r < |s| ==> !IsSpace(s[r]))
    ensures SkipSpaces(s, i) == r
    decreases r - i
  {
    if i < r {
      SkipUnique(s, i + 1, r);
    }
  }

  /** A literal matches itself; a blank in the format may take blanks that follow the literal with it. */
  lemma {:induction false} LiteralScanned(g: string, rest: string, x: string, t: string)
    requires PlainText(g) && Text(rest) && Text(g + rest) && Trim(x) != ""
    requires t == g + x || t == Trim(g + x)
    ensures ScanSpec(g + rest, t) == ScanSpec(rest, x) || ScanSpec(g + rest, t) == ScanSpec(rest, Trim(x))
    decreases |g|
  {
    hide ParseSpec, Trim;
    if g == "" {
      assert g + x == x && g + rest == rest;
    } else {
      TrimStep(g + x);
      TrimNonempty(g, x);
      assert (g + x)[1..] == g[1..] + x && (g + rest)[1..] == g[1..] + rest;
      LiteralStep(g + rest, g, x, t);
      LiteralScanned(g[1..], rest, x, if IsSpace(g[0]) then Trim(g[1..] + x) else g[1..] + x);
    }
  }

  lemma TrimNonempty(g: string, x: string)
    requires Trim(x) != ""
    ensures Trim(g + x) != ""
  {
    var n := SkipSpaces(x, 0);
    assert (g + x)[|g|+n] == x[n];
  }

  lemma LiteralStep(fmt: string, g: string, x: string, t: string)
    requires g != "" && PlainText(g) && Text(fmt) && fmt != "" && fmt[0] == g[0]
    requires Trim(g + x) != "" && (t == g + x || t == Trim(g + x))
    ensures ScanSpec(fmt, t) == ScanSpec(fmt[1..], if IsSpace(g[0]) then Trim(g[1..] + x) else g[1..] + x)
  {
    hide ScanSpec, Trim, IsSpace;
    TrimStep(g + x);
    assert (g + x)[1..] == g[1..] + x && (g + x)[0] == g[0];
    assert t != "" && g[0] != '%';
    LiteralUnfolds(fmt, t);
  }

  lemma LiteralUnfolds(fmt: string, t: string)
    requires Text(fmt) && fmt != "" && t != "" && fmt[0] != '%'
    ensures ScanSpec(fmt, t) == if IsSpace(fmt[0]) then ScanSpec(fmt[1..], Trim(t))
                                else if fmt[0] == t[0] then ScanSpec(fmt[1..], t[1..]) else Scanned(0, [])
  {
    hide ParseSpec, SkipSpaces, IsSpace;
  }

  /** A format without directives stores and counts nothing. */
  lemma {:induction false} NothingScanned(fmt: string, s: string)
    requires PlainText(fmt)
    ensures ScanSpec(fmt, s) == Scanned(0, [])
    decreases |fmt|
  {
    if fmt != "" && s != "" {
      assert fmt[0] != '%';
      NothingScanned(fmt[1..], s[SkipSpaces(s, 0)..]);
      NothingScanned(fmt[1..], s[1..]);
    }
  }

  lemma TailEndsNumeral(items: seq<Item>)
    requires ItemsOk(items) && items != []
    ensures EndsNumeral(items[0], items[0].sep + Printed(items[1..]))
    ensures items[1..] == [] || Trim(Printed(items[1..])) != ""
  {
    hide Core, Indent, IsSpace;
    var it, rest := items[0], items[1..];
    assert ItemOk(it);
    if rest == [] {
      assert it.sep + Printed(rest) == it.sep;
    } else {
      assert it.sep != "" && (it.sep + Printed(rest))[0] == it.sep[0];
      PrintedStarts(rest);
    }
  }

  lemma PrintedStarts(items: seq<Item>)
    requires ItemsOk(items) && items != []
    ensures var rest := Core(items[0]) + items[0].sep + Printed(items[1..]);
      Printed(items) == Repeat(' ', Indent(items[0])) + rest && Trim(Printed(items)) == rest != ""
  {
    hide ItemOk, Core, Indent;
    var it, n := items[0], Indent(items[0]);
    CoreStarts(it);
    var rest := Core(it) + it.sep + Printed(items[1..]);
    assert Printed(items) == Repeat(' ', n) + rest;
    SkipsBlanks(n, rest);
  }

  lemma FormatIsText(items: seq<Item>)
    requires ItemsOk(items)
    ensures Text(ItemsFormat(items)) && (items != [] ==> Text(items[0].sep + ItemsFormat(items[1..])))
  {
    hide CountText, EndsNumeral;
    if items != [] {
      FormatIsText(items[1..]);
      SpellingIsDigits(items[0]);
      assert ItemOk(items[0]);
      assert forall i :: 0 <= i < |Digits(items[0])| ==> IsDigit(Digits(items[0])[i], 10) && Digits(items[0])[i] != NUL;
    }
  }

  /** The first directive takes its numeral, with or without the blanks in front, and leaves the rest. */
  lemma FirstScanned(items: seq<Item>, s: string)
    requires ItemsOk(items) && items != [] && (s == Printed(items) || s == Trim(Printed(items)))
    ensures var (it, rest) := (items[0], items[1..]);
      && Text(it.sep + ItemsFormat(rest)) && Text(ItemsFormat(items))
      && ScanSpec(ItemsFormat(items), s)
         == Joined(1, [Number(it.value)], ScanSpec(it.sep + ItemsFormat(rest), it.sep + Printed(rest)))
  {
    hide ScanSpec, ItemOk, Core, Indent, Trim, SpellItem, EndsNumeral, Joined, ItemsFormat, Printed, Repeat;
    FormatIsText(items);
    var it, rest := items[0], items[1..];
    var fmt, tail := it.sep + ItemsFormat(rest), it.sep + Printed(rest);
    var n := if s == Printed(items) then Indent(it) else 0;
    FirstParts(items, s, n);
    TailEndsNumeral(items);
    ZerosUnindented(it);
    DirectiveScanned(it, n, fmt, tail);
  }

  lemma FirstParts(items: seq<Item>, s: string, n: nat)
    requires ItemsOk(items) && items != [] && (s == Printed(items) || s == Trim(Printed(items)))
    requires n == if s == Printed(items) then Indent(items[0]) else 0
    ensures s == Repeat(' ', n) + Core(items[0]) + (items[0].sep + Printed(items[1..]))
    ensures ItemsFormat(items) == "%" + SpellItem(items[0]) + (items[0].sep + ItemsFormat(items[1..]))
  {
    hide Core, Indent, Trim, SpellItem;
    PrintedStarts(items);
    Regrouped(Repeat(' ', n), Core(items[0]), items[0].sep, Printed(items[1..]));
    Regrouped("%", SpellItem(items[0]), items[0].sep, ItemsFormat(items[1..]));
    assert Repeat(' ', 0) + Core(items[0]) == Core(items[0]);
  }

  lemma Regrouped(a: string, b: string, c: string, d: string)
    ensures a + (b + c + d) == a + b + (c + d) == a + b + c + d
  {
  }

  lemma ValuesJoined(items: seq<Item>)
    requires items != []
    ensures Joined(1, [Number(items[0].value)], Scanned(|items| - 1, ValuesOf(items[1..])))
         == Scanned(|items|, ValuesOf(items))
  {
  }

  lemma ItemsTail(items: seq<Item>)
    requires ItemsOk(items) && items != []
    ensures ItemsOk(items[1..]) && PlainText(items[0].sep)
    ensures items[1..] == [] ==> ItemsFormat(items[1..]) == "" && Printed(items[1..]) == ""
  {
    hide Core, Indent;
    SepIsLiteral(items[0]);
  }

  /** Scanning what was printed with its own format reads back every value, in order; blanks in front of
      the first numeral may already be gone. */
  lemma {:induction false} ItemsScanned(items: seq<Item>, s: string)
    requires ItemsOk(items) && (s == Printed(items) || s == Trim(Printed(items)))
    ensures Text(ItemsFormat(items)) && ScanSpec(ItemsFormat(items), s) == Scanned(|items|, ValuesOf(items))
    decreases |items|
  {
    hide ScanSpec, ItemsOk, ItemsFormat, Printed, Trim, Joined, ValuesOf, PlainText;
    FormatIsText(items);
    if items == [] {
      NothingRead(items, s);
    } else {
      var it, rest := items[0], items[1..];
      FirstScanned(items, s);
      ItemsTail(items);
      ValuesJoined(items);
      if rest == [] {
        NothingRead(rest, "");
        assert it.sep + "" == it.sep;
        NothingScanned(it.sep, it.sep);
      } else {
        TailEndsNumeral(items);
        FormatIsText(rest);
        LiteralScanned(it.sep, ItemsFormat(rest), Printed(rest), it.sep + Printed(rest));
        ItemsScanned(rest, Printed(rest));
        ItemsScanned(rest, Trim(Printed(rest)));
      }
    }
  }

  lemma NothingRead(items: seq<Item>, s: string)
    requires items == []
    ensures Text(ItemsFormat(items)) && ScanSpec(ItemsFormat(items), s) == Scanned(0, []) && ValuesOf(items) == []
  {
    ScanEnds(ItemsFormat(items), s);
  }

  lemma ZerosUnindented(it: Item)
    requires ItemOk(it)
    ensures it.zeros ==> Indent(it) == 0
  {
  }

  /** For every format of integer directives (blank-padded `d`, blank- or zero-padded `u`, `x` and `X`)
      between literals that end the numerals, and all values of the directives' types: `sscanf` applied
      to what `vsprintf` printed, with the same format, counts all directives and converts exactly the
      values printed, in order. */
  lemma ScanConvertsPrinted(lead: string, items: seq<Item>)
    requires PlainText(lead) && ItemsOk(items)
    ensures var fmt := lead + ItemsFormat(items);
      Text(fmt) && Render(fmt, 0, ArgsOf(items), 0).Some?
      && ScanSpec(fmt, Render(fmt, 0, ArgsOf(items), 0).value) == Scanned(|items|, ValuesOf(items))
  {
    hide ItemOk, Render, ScanSpec, Trim, ItemsOk, ItemsFormat, Printed;
    var fmt, args, out := lead + ItemsFormat(items), ArgsOf(items), Printed(items);
    assert fmt[0..] == fmt && fmt[|lead|..] == ItemsFormat(items) && args[0..] == args;
    FormatIsText(items);
    ItemsRendered(fmt, |lead|, args, 0, items);
    LiteralRendered(fmt, 0, args, 0, lead, ItemsFormat(items));
    if items == [] {
      NothingToPrint(items);
      assert fmt == lead;
      NothingScanned(fmt, lead + out);
    } else {
      PrintedStarts(items);
      LiteralScanned(lead, ItemsFormat(items), out, lead + out);
      ItemsScanned(items, out);
      ItemsScanned(items, Trim(out));
    }
  }

  lemma NothingToPrint(items: seq<Item>)
    requires items == []
    ensures ItemsFormat(items) == "" && ItemsOk(items) && Printed(items) == ""
  {
  }

  // ---------- what the caller finds in its objects ----------

  /** `n` objects of type int. */
  predicate IntObjects(objects: seq<string>, n: nat) {
    |objects| == n && forall k :: 0 <= k < n ==> |objects[k]| == 4
  }

  /** Every object holds the value of its directive. */
  predicate HasBack(objects: seq<string>, items: seq<Item>) {
    IntObjects(objects, |items|) && forall k :: 0 <= k < |items| ==> ReadWord(objects[k]) == Word(items[k].value)
  }

  /** Of numbers stored one over the other the last one stays. */
  lemma LastNumberStays(d: string, items: seq<Item>)
    requires |d| == 4 && items != []
    ensures Landed(d, ValuesOf(items)) == WordBytes(Word(items[|items|-1].value))
  {
    hide WordBytes;
    var stores := ValuesOf(items);
    var before := Landed(d, stores[..|stores|-1]);
    var w := WordBytes(Word(items[|items|-1].value));
    assert w + before[4..] == w;
  }

  /** After the scan the first object holds the last value, and the others are as they were. */
  lemma OnlyFirstWritten(objects: seq<string>, items: seq<Item>)
    requires IntObjects(objects, |items|)
    ensures AfterScan(objects, ValuesOf(items))
         == if items == [] then objects else objects[0 := WordBytes(Word(items[|items|-1].value))]
  {
    hide WordBytes, Landed;
    if items != [] {
      LastNumberStays(objects[0], items);
    }
  }

  /** An int object that does not hold `w`. */
  function Other(w: nat): (s: string)
    requires w < WORD
    ensures |s| == 4 && ReadWord(s) != w
  {
    WordStored(0);
    WordStored(1);
    if w == 0 then WordBytes(1) else WordBytes(0)
  }

  /** Whatever the objects held, the caller has the values back exactly when there is at most one directive. */
  lemma HasBackIff(items: seq<Item>)
    ensures (forall objects :: IntObjects(objects, |items|) ==> HasBack(AfterScan(objects, ValuesOf(items)), items))
            <==> |items| <= 1
  {
    hide WordBytes, ReadWord, AfterScan, ValuesOf;
    if |items| <= 1 {
      forall objects | IntObjects(objects, |items|) ensures HasBack(AfterScan(objects, ValuesOf(items)), items) {
        OnlyFirstWritten(objects, items);
        if items != [] {
          WordStored(Word(items[0].value));
        }
      }
    } else {
      var objects := seq(|items|, i requires 0 <= i < |items| => Other(Word(items[i].value)));
      OnlyFirstWritten(objects, items);
      assert AfterScan(objects, ValuesOf(items))[1] == objects[1] == Other(Word(items[1].value));
      assert IntObjects(objects, |items|) && !HasBack(AfterScan(objects, ValuesOf(items)), items);
    }
  }

  /** `sscanf` with the format `vsprintf` printed with counts all directives; the first object ends up with
      the last value and the others stay as they were; so the caller has every value back, whatever its
      objects held before, if and only if the format has at most one directive. */
  lemma ScanReadsPrinted(lead: string, items: seq<Item>)
    requires PlainText(lead) && ItemsOk(items)
    ensures var fmt := lead + ItemsFormat(items);
      && Text(fmt) && Render(fmt, 0, ArgsOf(items), 0).Some?
      && var scan := ScanSpec(fmt, Render(fmt, 0, ArgsOf(items), 0).value);
      && scan.ret == |items|
      && (forall objects :: IntObjects(objects, |items|) ==>
        AfterScan(objects, scan.stores)
        == if items == [] then objects else objects[0 := WordBytes(Word(items[|items|-1].value))])
      && ((forall objects :: IntObjects(objects, |items|) ==> HasBack(AfterScan(objects, scan.stores), items))
          <==> |items| <= 1)
  {
    hide ItemsFormat, ArgsOf, Render, ScanSpec, AfterScan, HasBack, WordBytes, PlainText, ItemsOk;
    ScanConvertsPrinted(lead, items);
    HasBackIff(items);
    forall objects | IntObjects(objects, |items|)
      ensures AfterScan(objects, ValuesOf(items))
           == if items == [] then objects else objects[0 := WordBytes(Word(items[|items|-1].value))]
    {
      OnlyFirstWritten(objects, items);
    }
  }

  /** Two directives: `12 34` printed and scanned with `%d %d` counts two, leaves 34 in the first object and
      never writes the second. */
  lemma TwoDirectives(a: string, b: string)
    requires |a| == |b| == 4
    ensures Text("%d %d") && Render("%d %d", 0, [Int(12), Int(34)], 0) == Some("12 34")
    ensures var scan := ScanSpec("%d %d", "12 34");
      scan.ret == 2 && AfterScan([a, b], scan.stores) == [[34 as char, 0 as char, 0 as char, 0 as char], b]
  {
    hide ItemsFormat, Printed, ArgsOf, ScanSpec, Render, AfterScan, ItemsOk, WordBytes, FormatOf;
    var items := [Item('d', false, 0, 12, " "), Item('d', false, 0, 34, "")];
    TwoItems(items);
    assert "" + "%d %d" == "%d %d";
    assert "%d %d"[0..] == "%d %d" && [Int(12), Int(34)][0..] == [Int(12), Int(34)];
    ItemsRendered("%d %d", 0, [Int(12), Int(34)], 0, items);
    ScanReadsPrinted("", items);
    assert IntObjects([a, b], 2);
    Bytes34();
    assert [a, b][0 := WordBytes(34)] == [WordBytes(34), b];
  }

  lemma Bytes34()
    ensures WordBytes(34) == [34 as char, 0 as char, 0 as char, 0 as char]
  {
  }

  lemma TwoItems(items: seq<Item>)
    requires items == [Item('d', false, 0, 12, " "), Item('d', false, 0, 34, "")]
    ensures ItemsOk(items) && ItemsFormat(items) == "%d %d" && Printed(items) == "12 34"
    ensures ArgsOf(items) == [Int(12), Int(34)]
  {
    OneItem(items[0], 12, "12");
    OneItem(items[1], 34, "34");
    hide SpellItem, Core, Indent, Repeat;
    var last := items[1..];
    assert last == [items[1]] && last[1..] == [];
    assert ItemsFormat(last) == "%" + "d" + "" + "" == "%d";
    assert Printed(last) == "" + "34" + "" + "" == "34";
    assert ItemsFormat(items) == "%" + "d" + " " + "%d" == "%d %d";
    assert Printed(items) == "" + "12" + " " + "34" == "12 34";
  }

  lemma OneItem(it: Item, v: nat, text: string)
    requires it.conv == 'd' && !it.zeros && it.width == 0 && it.value == v && (it.sep == " " || it.sep == "")
    requires 10 <= v < 100 && text == [DigitChar(v / 10), DigitChar(v % 10)]
    ensures ItemOk(it) && SpellItem(it) == "d" && Repeat(' ', Indent(it)) == "" && Core(it) == text
  {
    hide Numeral;
    TwoDigits(v);
    assert IntText('d', v) == Numeral(v, 10);
    assert "" + "" + "" + ['d'] == "d";
  }

  lemma TwoDigits(v: nat)
    requires 10 <= v < 100
    ensures Numeral(v, 10) == [DigitChar(v / 10), DigitChar(v % 10)]
  {
    hide Quot, Rem;
    QuotUnique(v / 10, 10, v % 10);
    assert Numeral(v / 10, 10) == [DigitChar(v / 10)];
    assert Numeral(v, 10) == Numeral(v / 10, 10) + [DigitChar(v % 10)];
  }

  // ---------- words, characters and percent signs ----------

  /** A conversion character with no width in front of it is found as it stands. */
  lemma BareConversion(c: char, rest: string)
    requires !IsDigit(c, 10) && !IsSpace(c)
    ensures ReadConversion([c] + rest) == (c, 0)
  {
    var fmt := [c] + rest;
    assert fmt[0] == c && fmt[0..] == "" + fmt;
    DigitsFound(fmt, 0, "", fmt, 10);
    assert SkipSpaces(fmt, 0) == 0;
  }

  predicate IsWord(w: string) {
    w != "" && forall k :: 0 <= k < |w| ==> !IsSpace(w[k])
  }

  lemma {:induction false} WordTaken(s: string, i: nat, e: nat, width: nat)
    requires i <= e <= |s| && (forall k :: i <= k < e ==> !IsSpace(s[k])) && (width > 0 ==> e <= width)
    requires e < |s| ==> IsSpace(s[e]) || (width > 0 && e == width)
    requires i < width || width == 0 || i == e
    ensures WordEnd(s, i, width) == e
    decreases e - i
  {
    if i < e {
      WordTaken(s, i + 1, e, width);
    }
  }

  /** A word printed with `%s` in a field of any width is read back by `%s`, with its terminator, if and
      only if the field is not wider than the word: `%s` does not skip the blanks in front. */
  lemma WordReadsBack(w: string, width: nat, tail: string, rest: string)
    requires IsWord(w) && (tail == "" || IsSpace(tail[0]))
    ensures var field := Justify(w, width, RJust);
      ParseSpec("s" + rest, field + tail) == Parsed(|field|, [Chars(w + [NUL])]) <==> width <= |w|
  {
    hide Repeat, ReadConversion;
    BareConversion('s', rest);
    var s := Justify(w, width, RJust) + tail;
    if width <= |w| {
      WordTaken(s, 0, |w|, 0);
      assert s[..|w|] == w;
    } else {
      assert s[0] == ' ';
      WordTaken(s, 0, 0, 0);
    }
  }

  /** A width in front of a conversion character is read as spelled. */
  lemma WidthFound(width: nat, c: char, rest: string)
    requires 0 < width < WORD && !IsDigit(c, 10)
    ensures ReadConversion(Numeral(width, 10) + [c] + rest) == (c, width)
  {
    hide Value, Numeral, DigitsEnd, AllDigits;
    var d, tail := Numeral(width, 10), [c] + rest;
    var fmt := d + [c] + rest;
    assert fmt == d + tail && fmt[0..] == fmt;
    NumeralValue(width, 10);
    NumeralDigits(width, 10);
    DigitsFound(fmt, 0, d, tail, 10);
    FirstIsDigit(d);
    assert SkipSpaces(fmt, 0) == 0;
    assert fmt[|d|] == tail[0] == c;
  }

  lemma FirstIsDigit(d: string)
    requires d != "" && AllDigits(d, 10)
    ensures !IsSpace(d[0])
  {
    assert IsDigit(d[0], 10);
  }

  /** With a width, `%s` takes so many characters of a word and no more. */
  lemma WordCut(width: nat, w: string, tail: string, rest: string)
    requires 0 < width < WORD && IsWord(w) && (tail == "" || IsSpace(tail[0]))
    ensures var n := Min(width, |w|);
      ParseSpec(Numeral(width, 10) + "s" + rest, w + tail) == Parsed(n, [Chars(w[..n] + [NUL])])
  {
    hide ReadConversion, Numeral;
    WidthFound(width, 's', rest);
    var s, n := w + tail, Min(width, |w|);
    WordTaken(s, 0, n, width);
    assert s[..n] == w[..n];
  }

  /** With a width, `%c` takes so many characters, or all there are. */
  lemma CharsTaken(width: nat, s: string, rest: string)
    requires 0 < width < WORD
    ensures var n := Min(width, |s|);
      ParseSpec(Numeral(width, 10) + "c" + rest, s) == Parsed(n, [Chars(s[..n])])
  {
    hide ReadConversion, Numeral;
    WidthFound(width, 'c', rest);
  }

  /** A character printed with `%c` is read back by `%c`, blanks and all. */
  lemma CharReadsBack(v: int, tail: string, rest: string)
    requires v % 256 != 0
    ensures ParseSpec("c" + rest, CharText(v) + tail) == Parsed(1, [Chars(CharText(v))])
  {
    hide ReadConversion;
    BareConversion('c', rest);
    assert (CharText(v) + tail)[..1] == CharText(v);
  }

  /** `%%` consumes a percent sign, stores nothing and is not counted; anything else in its place ends the scan. */
  lemma PercentScanned(s: string, rest: string)
    requires Text(rest)
    ensures ParseSpec("%" + rest, s) == Parsed(if s != "" && s[0] == '%' then 1 else 0, [])
    ensures Text("%%" + rest)
    ensures ScanSpec("%%" + rest, s) == if s != "" && s[0] == '%' then ScanSpec(rest, s[1..]) else Scanned(0, [])
  {
    hide ReadConversion, DigitsEnd;
    BareConversion('%', rest);
    assert ("%%" + rest)[1..] == "%" + rest && ("%%" + rest)[2..] == rest && ("%" + rest)[0..] == "" + ("%" + rest);
    DigitsFound("%" + rest, 0, "", "%" + rest, 10);
  }
}
