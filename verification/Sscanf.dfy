/** The format interpreter of sscanf.c: `parse_arg` and `sscanf`. */
module Sscanf {
  import opened CStrings
  import opened Numerals
  import opened BoundedNumerals
  import opened Wrappers

  // ---------- what is stored, and where ----------

  /** What one conversion stores: a number, or the characters written, with the terminator that ends a word. */
  datatype Stored = Number(v: int) | Chars(s: string)

  /** The four bytes of a word, lowest first. */
  function WordBytes(w: nat): (s: string)
    requires w < WORD
    ensures |s| == 4
  {
    [(w % 0x100) as char, (w / 0x100 % 0x100) as char, (w / 0x1_0000 % 0x100) as char, (w / 0x100_0000) as char]
  }

  /** The word an int object of four bytes holds. */
  function ReadWord(s: string): nat
    requires |s| == 4
  {
    s[0] as int + 0x100 * s[1] as int + 0x1_0000 * s[2] as int + 0x100_0000 * s[3] as int
  }

  lemma WordStored(w: nat)
    requires w < WORD
    ensures ReadWord(WordBytes(w)) == w
  {
    ByteSum(w);
    var s := WordBytes(w);
    assert s[0] as int == w % 0x100 && s[1] as int == w / 0x100 % 0x100;
    assert s[2] as int == w / 0x1_0000 % 0x100 && s[3] as int == w / 0x100_0000;
  }

  lemma ByteSum(w: nat)
    ensures w == w % 0x100 + 0x100 * (w / 0x100 % 0x100) + 0x1_0000 * (w / 0x1_0000 % 0x100)
                 + 0x100_0000 * (w / 0x100_0000)
  {
    var a, b, c := w / 0x100, w / 0x1_0000, w / 0x100_0000;
    assert w == 0x100 * a + w % 0x100;
    assert b == a / 0x100 && a == 0x100 * b + a % 0x100;
    assert c == b / 0x100 && b == 0x100 * c + b % 0x100;
  }

  /** The bytes a conversion writes. */
  function Bytes(st: Stored): string {
    match st
    case Number(v) => WordBytes(v % WORD)
    case Chars(s) => s
  }

  /** An object after `b` was written at its start; it keeps what stands behind. */
  function Overlay(d: string, b: string): (r: string)
    ensures |r| == |d|
  {
    if |b| <= |d| then b + d[|b|..] else b[..|d|]
  }

  /** An object after all of `stores` were written to it, one over the other. */
  function Landed(d: string, stores: seq<Stored>): (r: string)
    ensures |r| == |d|
  {
    if stores == [] then d else Overlay(Landed(d, stores[..|stores|-1]), Bytes(stores[|stores|-1]))
  }

  lemma {:induction false} LandedAppend(d: string, a: seq<Stored>, b: seq<Stored>)
    ensures Landed(d, a + b) == Landed(Landed(d, a), b)
  {
    if b == [] {
      assert a + b == a;
    } else {
      LandedAppend(d, a, b[..|b|-1]);
      assert (a + b)[..|a+b|-1] == a + b[..|b|-1];
    }
  }

  /** There is room for every single store. */
  predicate Room(stores: seq<Stored>, size: nat) {
    forall st :: st in stores ==> |Bytes(st)| <= size
  }

  /** The objects a call points to, after its stores: all of them went to the first. `parse_arg` takes the
      argument list by value, as a pointer, so what it takes off its copy is still on the caller's. */
  function AfterScan(objects: seq<string>, stores: seq<Stored>): (r: seq<string>)
    ensures |r| == |objects|
  {
    if stores == [] || objects == [] then objects else objects[0 := Landed(objects[0], stores)]
  }

  // ---------- the specification ----------

  /** How many characters a directive consumed (none stops the scan), and what it stored. */
  datatype Parsed = Parsed(cur: nat, stored: seq<Stored>)

  /** The value `sscanf` returns, and everything stored on the way, in order. */
  datatype Scanned = Scanned(ret: nat, stores: seq<Stored>)

  function Converted(r: Option<Read>): Parsed {
    match r
    case None => Parsed(0, [])
    case Some(v) => Parsed(v.end, [Number(v.value)])
  }

  /** The run of characters that are not blank, up to `width` of them unless `width` is 0. */
  function WordEnd(s: string, i: nat, width: nat): (r: nat)
    requires i <= |s|
    ensures i <= r <= |s| && (forall k :: i <= k < r ==> !IsSpace(s[k])) && (width == 0 || r <= width || r == i)
    ensures r < |s| ==> IsSpace(s[r]) || (width != 0 && width <= r)
    decreases |s| - i
  {
    if i < |s| && !IsSpace(s[i]) && (width == 0 || i < width) then WordEnd(s, i + 1, width) else i
  }

  /** The conversion character of a directive and the width in front of it. */
  function ReadConversion(fmt: string): (r: (char, nat))
  {
    match ReadUnsigned(fmt, 10)
    case None => (At(fmt, 0), 0)
    case Some(w) => (At(fmt, w.end), w.value)
  }

  /** The directive behind a percent sign, applied to the rest of the input. */
  function ParseSpec(fmt: string, s: string): (r: Parsed)
    ensures r.cur <= |s|
  {
    var (c, width) := ReadConversion(fmt);
    if c == 'd' then Converted(ReadSigned(s, 10))
    else if c == 'u' then Converted(ReadUnsigned(s, 10))
    else if c == 'x' || c == 'X' then Converted(ReadUnsigned(s, 16))
    else if c == 'c' then
      var n := Min(|s|, if width == 0 then 1 else width);
      Parsed(n, [Chars(s[..n])])
    else if c == 's' then
      var n := WordEnd(s, 0, width);
      Parsed(n, [Chars(s[..n] + [NUL])])
    else if c == '%' && At(s, 0) == '%' then Parsed(1, [])
    else Parsed(0, [])
  }

  lemma OnlyDigits(fmt: string)
    requires DigitsEnd(fmt, 0, 10) == |fmt|
    ensures fmt == "" || (ReadUnsigned(fmt, 10).Some? && ReadUnsigned(fmt, 10).value.end == |fmt|)
  {
    if fmt != "" {
      assert fmt[0..|fmt|] == fmt;
      assert IsDigit(fmt[0], 10);
    }
  }

  lemma NoConversion(fmt: string)
    requires DigitsEnd(fmt, 0, 10) == |fmt|
    ensures ReadConversion(fmt).0 == NUL
  {
    hide ReadUnsigned, DigitsEnd;
    OnlyDigits(fmt);
  }

  /** A directive that consumes something has a conversion character behind its digits. */
  lemma DirectiveFits(fmt: string, s: string)
    ensures ParseSpec(fmt, s).cur > 0 ==> DigitsEnd(fmt, 0, 10) < |fmt|
  {
    hide ReadSigned, ReadUnsigned, ReadConversion, WordEnd, DigitsEnd, Converted;
    if DigitsEnd(fmt, 0, 10) == |fmt| {
      NoConversion(fmt);
    }
  }

  /** The whole scan, of the rest of the format over the rest of the input. */
  function ScanSpec(fmt: string, s: string): (r: Scanned)
    requires Text(fmt)
    decreases |fmt|
  {
    if fmt == "" || s == "" then Scanned(0, [])
    else if fmt[0] == '%' then
      var p := ParseSpec(fmt[1..], s);
      if p.cur == 0 then Scanned(0, p.stored)
      else
        DirectiveFits(fmt[1..], s);
        var rest := ScanSpec(fmt[DigitsEnd(fmt[1..], 0, 10)+2..], s[p.cur..]);
        Scanned(rest.ret + if At(fmt, 1) != '%' then 1 else 0, p.stored + rest.stores)
    else if IsSpace(fmt[0]) then ScanSpec(fmt[1..], s[SkipSpaces(s, 0)..])
    else if fmt[0] == s[0] then ScanSpec(fmt[1..], s[1..])
    else Scanned(0, [])
  }

  // ---------- the code ----------

  method StoreWord(d: array<char>, v: int)
    requires d.Length >= 4
    modifies d
    ensures d[..] == Overlay(old(d[..]), Bytes(Number(v)))
  {
    var b := WordBytes(v % WORD);
    d[0], d[1], d[2], d[3] := b[0], b[1], b[2], b[3];
    assert d[..] == b + d[4..];
  }

  /** `dests` are the objects the pointer arguments refer to and `args` is the position in that list; the
      position is a copy, and the caller's does not move. */
  method ParseArg(fmt: string, str: string, dests: seq<array<char>>, args: nat)
    returns (cur: nat, ghost stored: seq<Stored>)
    requires Text(fmt) && Text(str)
    requires ParseSpec(fmt, str).stored != [] ==>
      args < |dests| && Room(ParseSpec(fmt, str).stored, dests[args].Length)
    modifies if args < |dests| then {dests[args]} else {}
    ensures Parsed(cur, stored) == ParseSpec(fmt, str)
    ensures args < |dests| ==> dests[args][..] == Landed(old(dests[args][..]), stored)
  {
    hide ReadUnsigned, ReadSigned, ParseSpec;
    Conversions(fmt, str);
    cur, stored := 0, [];
    var w := ParseUnsigned(fmt, 10);
    var width: nat := if w.Some? then w.value.value else 0;
    var c := At(fmt, if w.Some? then w.value.end else 0);
    var r := None;
    if c == 'd' {
      r := ParseSigned(str, 10);
    } else if c == 'u' {
      r := ParseUnsigned(str, 10);
    } else if c == 'x' || c == 'X' {
      r := ParseUnsigned(str, 16);
    } else if c == 'c' {
      cur := TakeChars(str, if width == 0 then 1 else width, dests[args]);
      stored := [Chars(str[..cur])];
      LandedOne(old(dests[args][..]), stored[0]);
    } else if c == 's' {
      cur := TakeWord(str, width, dests[args]);
      stored := [Chars(str[..cur] + [NUL])];
      LandedOne(old(dests[args][..]), stored[0]);
    } else if c == '%' && At(str, 0) == '%' {
      cur := cur + 1;
    }
    if r.Some? {
      cur, stored := r.value.end, [Number(r.value.value)];
      StoreWord(dests[args], r.value.value);
      LandedOne(old(dests[args][..]), stored[0]);
    }
  }

  lemma LandedOne(d: string, st: Stored)
    ensures Landed(d, [st]) == Overlay(d, Bytes(st))
  {
    assert [st][..0] == [];
  }

  /** What each conversion character asks for, with the room its store needs. */
  lemma Conversions(fmt: string, s: string)
    ensures var ((c, width), p) := (ReadConversion(fmt), ParseSpec(fmt, s));
      && (c == 'd' ==> p == Converted(ReadSigned(s, 10)))
      && (c == 'u' ==> p == Converted(ReadUnsigned(s, 10)))
      && (c == 'x' || c == 'X' ==> p == Converted(ReadUnsigned(s, 16)))
      && (c == 'c' ==> var n := Min(|s|, if width == 0 then 1 else width); p == Parsed(n, [Chars(s[..n])]))
      && (c == 's' ==> var n := WordEnd(s, 0, width); p == Parsed(n, [Chars(s[..n] + [NUL])]))
      && (c !in "duxXcs" ==> p == Parsed(if c == '%' && At(s, 0) == '%' then 1 else 0, []))
    ensures forall st, size :: Room([st], size) <==> |Bytes(st)| <= size
  {
    hide ReadConversion;
    forall st, size: nat ensures Room([st], size) <==> |Bytes(st)| <= size {
      assert st in [st];
    }
  }

  method TakeChars(str: string, width: nat, charp: array<char>) returns (n: nat)
    requires Text(str) && Min(|str|, width) <= charp.Length
    modifies charp
    ensures n == Min(|str|, width) && charp[..] == Overlay(old(charp[..]), str[..n])
  {
    n := 0;
    while At(str, n) != NUL && n < width
      invariant n <= Min(|str|, width) && charp[..] == Overlay(old(charp[..]), str[..n])
      decreases width - n
    {
      OverlayGrows(old(charp[..]), str[..n], str[n]);
      charp[n] := At(str, n);
      n := n + 1;
      assert str[..n] == str[..n-1] + [str[n-1]];
    }
  }

  lemma OverlayGrows(d: string, b: string, c: char)
    requires |b| < |d|
    ensures Overlay(d, b + [c]) == Overlay(d, b)[|b| := c]
  {
  }

  method TakeWord(str: string, width: nat, charp: array<char>) returns (n: nat)
    requires Text(str) && WordEnd(str, 0, width) < charp.Length
    modifies charp
    ensures n == WordEnd(str, 0, width) && charp[..] == Overlay(old(charp[..]), str[..n] + [NUL])
  {
    n := 0;
    while At(str, n) != NUL && !IsSpace(At(str, n)) && (width == 0 || n < width)
      invariant n <= |str| && WordEnd(str, n, width) == WordEnd(str, 0, width)
      invariant charp[..] == Overlay(old(charp[..]), str[..n])
      decreases |str| - n
    {
      OverlayGrows(old(charp[..]), str[..n], str[n]);
      charp[n] := At(str, n);
      n := n + 1;
      assert str[..n] == str[..n-1] + [str[n-1]];
    }
    OverlayGrows(old(charp[..]), str[..n], NUL);
    charp[n] := NUL;
  }

  /** Results of the part already done and of the rest, joined. */
  function Joined(ret: nat, stores: seq<Stored>, rest: Scanned): Scanned {
    Scanned(ret + rest.ret, stores + rest.stores)
  }

  lemma JoinedNothing(r: Scanned)
    ensures Joined(0, [], r) == r
  {
  }

  lemma NothingJoined(ret: nat, stores: seq<Stored>)
    ensures Joined(ret, stores, Scanned(0, [])) == Scanned(ret, stores)
  {
  }

  lemma ScanUnfolds(fmt: string, s: string)
    requires Text(fmt) && fmt != "" && s != "" && fmt[0] == '%'
    ensures var p := ParseSpec(fmt[1..], s);
      if p.cur == 0 then ScanSpec(fmt, s) == Scanned(0, p.stored)
      else
        var g := DigitsEnd(fmt[1..], 0, 10) + 2;
        g <= |fmt| && ScanSpec(fmt, s)
        == Joined(if At(fmt, 1) != '%' then 1 else 0, p.stored, ScanSpec(fmt[g..], s[p.cur..]))
  {
    hide ParseSpec, DigitsEnd;
    DirectiveFits(fmt[1..], s);
  }

  lemma ScanStep(fmt: string, f: nat, str: string, i: nat, ret: nat, stores: seq<Stored>)
    requires Text(fmt) && f < |fmt| && i < |str|
    ensures fmt[f] == '%' ==>
      var p := ParseSpec(fmt[f+1..], str[i..]);
      if p.cur == 0 then Joined(ret, stores, ScanSpec(fmt[f..], str[i..])) == Scanned(ret, stores + p.stored)
      else
        var g := DigitsEnd(fmt, f + 1, 10) + 1;
        g <= |fmt| && Joined(ret, stores, ScanSpec(fmt[f..], str[i..]))
        == Joined(ret + if At(fmt, f + 1) != '%' then 1 else 0, stores + p.stored,
                  ScanSpec(fmt[g..], str[i+p.cur..]))
  {
    hide ParseSpec, ScanSpec, DigitsEnd;
    if fmt[f] == '%' {
      ScanUnfolds(fmt[f..], str[i..]);
      assert fmt[f..][1..] == fmt[f+1..];
      var p := ParseSpec(fmt[f+1..], str[i..]);
      if p.cur > 0 {
        DigitsEndShift(fmt, f + 1);
        var e := DigitsEnd(fmt[f+1..], 0, 10);
        assert fmt[f..][e+2..] == fmt[f+1+e+1..];
        assert str[i..][p.cur..] == str[i+p.cur..];
        assert At(fmt[f..], 1) == At(fmt, f + 1);
        var rest := ScanSpec(fmt[f+e+2..], str[i+p.cur..]);
        assert stores + (p.stored + rest.stores) == stores + p.stored + rest.stores;
      }
    }
  }

  lemma ScanLiteralStep(fmt: string, f: nat, str: string, i: nat)
    requires Text(fmt) && f < |fmt| && i < |str| && fmt[f] != '%'
    ensures ScanSpec(fmt[f..], str[i..]) ==
      if IsSpace(fmt[f]) then ScanSpec(fmt[f+1..], str[i+SkipSpaces(str[i..], 0)..])
      else if fmt[f] == str[i] then ScanSpec(fmt[f+1..], str[i+1..])
      else Scanned(0, [])
  {
    assert fmt[f..][1..] == fmt[f+1..] && str[i..][1..] == str[i+1..];
    var n := SkipSpaces(str[i..], 0);
    assert str[i..][n..] == str[i+n..];
  }

  lemma ScanEnds(fmt: string, s: string)
    requires Text(fmt) && (fmt == "" || s == "")
    ensures ScanSpec(fmt, s) == Scanned(0, [])
  {
  }

  lemma DigitsEndShift(fmt: string, f: nat)
    requires f <= |fmt|
    ensures DigitsEnd(fmt, f, 10) == f + DigitsEnd(fmt[f..], 0, 10)
  {
    hide DigitsEnd, IsDigit;
    var s := fmt[f..];
    var e := DigitsEnd(s, 0, 10);
    forall k | f <= k < f + e ensures IsDigit(fmt[k], 10) {
      assert fmt[k] == s[k-f] == s[0..e][k-f];
    }
    assert e < |s| ==> s[e] == fmt[f+e];
    DigitsEndAt(fmt, f, f + e, 10);
  }

  method SkipDigits(fmt: string, f0: nat) returns (f: nat)
    requires Text(fmt) && f0 <= |fmt|
    ensures f == DigitsEnd(fmt, f0, 10)
  {
    f := f0;
    while '0' <= At(fmt, f) <= '9'
      invariant f <= |fmt| && DigitsEnd(fmt, f, 10) == DigitsEnd(fmt, f0, 10)
      decreases |fmt| - f
    {
      f := f + 1;
    }
  }

  /** `dests` are the objects the pointer arguments refer to. */
  method Sscanf(str: string, fmt: string, dests: seq<array<char>>) returns (ret: nat)
    requires Text(fmt) && Text(str)
    requires var stores := ScanSpec(fmt, str).stores; stores != [] ==> dests != [] && Room(stores, dests[0].Length)
    modifies if dests != [] then {dests[0]} else {}
    ensures ret == ScanSpec(fmt, str).ret
    ensures dests != [] ==> dests[0][..] == Landed(old(dests[0][..]), ScanSpec(fmt, str).stores)
  {
    hide ParseSpec, ScanSpec, Joined, DigitsEnd, SkipSpaces, IsSpace, Landed, Room;
    ret := 0;
    ghost var all, stores := ScanSpec(fmt, str), [];
    var args: nat := 0;
    var f: nat, i: nat := 0, 0;
    assert fmt[0..] == fmt && str[0..] == str;
    JoinedNothing(all);
    NothingLanded(if dests == [] then "" else dests[0][..]);
    while At(fmt, f) != NUL && At(str, i) != NUL
      invariant f <= |fmt| && i <= |str|
      invariant Joined(ret, stores, ScanSpec(fmt[f..], str[i..])) == all
      invariant dests != [] ==> dests[0][..] == Landed(old(dests[0][..]), stores)
      decreases |fmt| - f
    {
      ScanStep(fmt, f, str, i, ret, stores);
      if fmt[f] == '%' {
        DirectiveRoom(fmt, f, str, i, ret, stores, if dests == [] then 0 else dests[0].Length);
        ghost var stored;
        var cur;
        cur, stored := ParseArg(fmt[f+1..], str[i..], dests, args);
        if dests != [] {
          LandedAppend(old(dests[0][..]), stores, stored);
        }
        stores := stores + stored;
        if cur == 0 {
          return;
        }
        if At(fmt, f + 1) != '%' {
          ret := ret + 1;
        }
        f := f + 1;
        f := SkipDigits(fmt, f);
        f := f + 1;
        i := i + cur;
      } else {
        ScanLiteralStep(fmt, f, str, i);
        if IsSpace(fmt[f]) {
          var n := Skip(str[i..]);
          f, i := f + 1, i + n;
        } else if fmt[f] == str[i] {
          f, i := f + 1, i + 1;
        } else {
          NothingJoined(ret, stores);
          return;
        }
      }
    }
    ScanEnds(fmt[f..], str[i..]);
    NothingJoined(ret, stores);
  }

  lemma NothingLanded(d: string)
    ensures Landed(d, []) == d
  {
  }

  /** The directive at hand stores only what the whole scan stores. */
  lemma DirectiveRoom(fmt: string, f: nat, str: string, i: nat, ret: nat, stores: seq<Stored>, size: nat)
    requires Text(fmt) && f < |fmt| && i < |str| && fmt[f] == '%'
    ensures var (all, p) := (Joined(ret, stores, ScanSpec(fmt[f..], str[i..])), ParseSpec(fmt[f+1..], str[i..]));
      && (p.stored != [] ==> all.stores != [])
      && (Room(all.stores, size) ==> Room(p.stored, size))
  {
    hide ParseSpec, ScanSpec, DigitsEnd;
    ScanStep(fmt, f, str, i, ret, stores);
  }
}
