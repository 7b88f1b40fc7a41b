/** What stands in the output of vsprintf.c: the text of a directive as digits with a value or as characters
    with codes, and its place in the field. */
module FormatOutput {
  import opened Numerals
  import opened BoundedNumerals
  import opened Atob
  import opened Format
  import opened Vsprintf
  import opened FormatMeaning

  // ---------- the field ----------

  predicate Only(s: string, c: char) {
    forall i :: 0 <= i < |s| ==> s[i] == c
  }

  /** `text` stands in `field` behind `left` characters. */
  predicate StandsAt(field: string, text: string, left: nat) {
    left + |text| <= |field| && field[left..left+|text|] == text
  }

  /** The field is as wide as asked, and no narrower than the text. Left-justified, it is the text and then
      blanks; right-justified, blanks or zeros and then the text; centred, blanks, the text and blanks, with
      as many on the left as on the right or one more. */
  predicate Shaped(field: string, text: string, width: int, just: Just) {
    && |field| == (if width > |text| then width else |text|)
    && var pad := |field| - |text|;
      match just {
        case LJust => StandsAt(field, text, 0) && Only(field[|text|..], ' ')
        case RJust => StandsAt(field, text, pad) && Only(field[..pad], ' ')
        case RJust0 => StandsAt(field, text, pad) && Only(field[..pad], '0')
        case Center =>
          var right := pad / 2;
          var left := pad - right;
          StandsAt(field, text, left) && Only(field[..left], ' ') && Only(field[left+|text|..], ' ')
      }
  }

  lemma Placed(front: string, text: string, back: string)
    ensures var field := front + text + back;
      && StandsAt(field, text, |front|) && field[..|front|] == front && field[|front|+|text|..] == back
  {
  }

  lemma JustifyParts(text: string, width: int, just: Just) returns (front: string, back: string)
    ensures Justify(text, width, just) == front + text + back
    ensures |front| + |back| == if width > |text| then width - |text| else 0
    ensures just == LJust ==> front == "" && Only(back, ' ')
    ensures just == RJust ==> Only(front, ' ') && back == ""
    ensures just == RJust0 ==> Only(front, '0') && back == ""
    ensures just == Center ==> Only(front, ' ') && Only(back, ' ') && |back| == (|front| + |back|) / 2
  {
    hide Repeat, Only;
    var n := if width > |text| then width - |text| else 0;
    front, back := "", "";
    match just {
      case LJust =>
        back := Padding(' ', n);
        NothingInFront(text, back);
      case RJust =>
        front := Padding(' ', n);
        NothingBehind(front, text);
      case RJust0 =>
        front := Padding('0', n);
        NothingBehind(front, text);
      case Center =>
        front := Padding(' ', n - n / 2);
        back := Padding(' ', n / 2);
    }
  }

  lemma Padding(c: char, n: nat) returns (pad: string)
    ensures pad == Repeat(c, n) && Only(pad, c) && |pad| == n
  {
    pad := Repeat(c, n);
  }

  lemma NothingInFront(text: string, back: string)
    ensures "" + text + back == text + back
  {
  }

  lemma NothingBehind(front: string, text: string)
    ensures front + text + "" == front + text
  {
  }

  lemma JustifyShaped(text: string, width: int, just: Just)
    ensures Shaped(Justify(text, width, just), text, width, just)
  {
    hide Justify, Only, StandsAt;
    var front, back := JustifyParts(text, width, just);
    Placed(front, text, back);
  }

  /** The characters of the text a precision lets through; zero lets all through. */
  predicate Shown(shown: string, text: string, prec: int) {
    |shown| == (if 0 < prec < |text| then prec else |text|) && shown <= text
  }

  lemma CutShown(text: string, prec: nat)
    ensures Shown(Cut(text, prec), text, prec)
  {
  }

  // ---------- the text ----------

  /** What the text of a conversion denotes; `v` is cut to 32 bits, or to 8 for a character. */
  predicate Denotes(conv: char, v: int, text: string) {
    var w := v % 0x1_0000_0000;
    match conv
    case 'd' =>
      if w < 0x8000_0000 then DigitsOf(text, 10, w)
      else text != "" && text[0] == '-' && DigitsOf(text[1..], 10, 0x1_0000_0000 - w)
    case 'u' => DigitsOf(text, 10, w)
    case 'o' => DigitsOf(text, 8, w)
    case 'b' => DigitsOf(text, 2, w)
    case 'x' => DigitsOf(text, 16, w) && LowerCase(text)
    case 'p' => DigitsOf(text, 16, w) && LowerCase(text)
    case 'X' => DigitsOf(text, 16, w) && UpperCase(text)
    case 'c' => if v % 256 == 0 then text == "" else |text| == 1 && text[0] as int == v % 256
    case _ => false
  }

  /** The text of every integer conversion is the numeral of the 32-bit word in its base. */
  lemma IntTextDenotes(conv: char, v: int)
    requires OneOf("dobpxXu", conv)
    ensures Denotes(conv, v, IntText(conv, v))
  {
    hide Numeral, DigitsOf, LowerCase, UpperCase, Upper;
    var w := Word(v);
    NumeralIsDigits(w, 2);
    NumeralIsDigits(w, 8);
    NumeralIsDigits(w, 10);
    NumeralIsDigits(w, 16);
    UpperCased(Numeral(w, 16), 16, w);
    if w >= 0x8000_0000 {
      NumeralIsDigits(0x1_0000_0000 - w, 10);
      assert ("-" + Numeral(0x1_0000_0000 - w, 10))[1..] == Numeral(0x1_0000_0000 - w, 10);
    }
  }

  lemma CharTextDenotes(v: int)
    ensures Denotes('c', v, CharText(v))
  {
  }

  // ---------- the directive ----------

  /** The argument a directive converts, behind the ones its stars take. */
  function Converted(p: Piece, args: seq<Arg>, k: nat): Arg
    requires p.Spec? && PieceOk(p, args, k) && p.conv != '%'
  {
    args[k + Stars(p.width) + Stars(p.prec)]
  }

  /** `text` is what the argument stands for: a string itself, `(null)` for none, and otherwise a text that
      denotes the integer. */
  predicate TextFor(conv: char, arg: Arg, text: string) {
    match arg
    case Str(s) => text == s
    case Null => text == "(null)"
    case Int(v) => Denotes(conv, v, text)
  }

  /** Every directive puts the text of its argument, as far as the precision lets it through, into a field
      of its width. A pointer has `0x` in front of a field of eight with zeros; a percent sign is followed by
      an empty text in a field of its width. */
  lemma DirectiveOutput(p: Piece, args: seq<Arg>, k: nat) returns (text: string, shown: string)
    requires p.Spec? && PieceOk(p, args, k)
    ensures var (w, n) := (CountOf(p.width, args, k), CountOf(p.prec, args, k + Stars(p.width)));
      var out := PieceText(p, args, k);
      if p.conv == '%' then out != "" && out[0] == '%' && Shaped(out[1..], "", w, p.just)
      else
        && TextFor(p.conv, Converted(p, args, k), text) && Shown(shown, text, n)
        && if p.conv == 'p' then |out| >= 2 && out[..2] == "0x" && Shaped(out[2..], shown, 8, RJust0)
           else Shaped(out, shown, w, p.just)
  {
    hide Shaped, Shown, Denotes, Justify, IntText, CharText, Cut, CountOf, CountOk;
    var w, n := CountOf(p.width, args, k), CountOf(p.prec, args, k + Stars(p.width));
    text, shown := "", "";
    if p.conv == '%' {
      JustifyShaped("", w, p.just);
      assert ("%" + Justify("", w, p.just))[1..] == Justify("", w, p.just);
    } else {
      var arg := Converted(p, args, k);
      text := ArgText(p.conv, arg);
      shown := Cut(text, n);
      TextOfArg(p.conv, arg);
      CutShown(text, n);
      JustifyShaped(shown, w, p.just);
      JustifyShaped(shown, 8, RJust0);
      assert ("0x" + Justify(shown, 8, RJust0))[2..] == Justify(shown, 8, RJust0);
    }
  }

  lemma TextOfArg(conv: char, arg: Arg)
    requires Converts(conv) && conv != '%' && (conv == 's' <==> !arg.Int?)
    ensures TextFor(conv, arg, ArgText(conv, arg))
  {
    hide Denotes, IntText, CharText, Converts;
    if arg.Int? {
      ConvertsInt(conv);
      if conv == 'c' {
        CharTextDenotes(arg.v);
      } else {
        IntTextDenotes(conv, arg.v);
      }
    }
  }

  /** A star is the count it takes from the arguments spelled out, and letters `l` in front of a conversion
      change nothing: both directives contribute the same. */
  lemma StarSpelledOut(p: Piece, args: seq<Arg>, k: nat, q: Piece, k': nat)
    requires p.Spec? && q.Spec? && PieceOk(p, args, k) && PieceOk(q, args, k')
    requires p.just == q.just && p.conv == q.conv && k + Takes(p) == k' + Takes(q)
    requires CountOf(p.width, args, k) == CountOf(q.width, args, k')
    requires CountOf(p.prec, args, k + Stars(p.width)) == CountOf(q.prec, args, k' + Stars(q.width))
    ensures PieceText(p, args, k) == PieceText(q, args, k')
  {
    hide CountOf, CountOk, Justify, Cut, ArgText;
  }
}
