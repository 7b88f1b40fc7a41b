/** str_fmt.c and the integer, string, character and percent directives of vsprintf.c: one output
    buffer, written in place through a cursor. */
module Format {
  import opened CStrings
  import opened Numerals

  // ---------- justification ----------

  datatype Just = RJust | LJust | RJust0 | Center

  /** The text padded to `size` characters; centring puts the odd blank on the left. */
  function Justify(t: string, size: int, fmt: Just): (r: string)
    ensures |r| == if size > |t| then size else |t|
  {
    if size <= |t| then t else
      var n := size - |t|;
      match fmt
      case RJust => Repeat(' ', n) + t
      case LJust => t + Repeat(' ', n)
      case RJust0 => Repeat('0', n) + t
      case Center => Repeat(' ', n - n / 2) + t + Repeat(' ', n / 2)
  }

  /** `n` calls of `strcat` with a blank. */
  method Append(a: array<char>, p: nat, n0: int, ghost t: string)
    requires Holds(a, p, t) && p + |t| + (if n0 > 0 then n0 else 0) < a.Length
    modifies a
    ensures var n := if n0 > 0 then n0 else 0;
      Holds(a, p, t + Repeat(' ', n)) && OnlyWithin(a, p, p + |t| + n + 1)
  {
    var m := n0;
    ghost var u, k := t, 0;
    assert t + Repeat(' ', 0) == t;
    while m > 0
      invariant u == t + Repeat(' ', k) && Holds(a, p, u) && (m > 0 ==> k == n0 - m)
      invariant m <= 0 ==> k == if n0 > 0 then n0 else 0
      invariant OnlyWithin(a, p, p + |u| + 1)
      decreases m
    {
      Strcat(a, p, " ", u);
      k := k + 1;
      assert u + " " == t + Repeat(' ', k);
      u := u + " ";
      m := m - 1;
    }
  }

  /** `n` calls of `strichr` with `c`. */
  method Prepend(a: array<char>, p: nat, c: char, n0: int, ghost t: string)
    requires Holds(a, p, t) && c != NUL && p + |t| + (if n0 > 0 then n0 else 0) < a.Length
    modifies a
    ensures var n := if n0 > 0 then n0 else 0;
      Holds(a, p, Repeat(c, n) + t) && OnlyWithin(a, p, p + |t| + n + 1)
  {
    var m := n0;
    ghost var u, k := t, 0;
    assert Repeat(c, 0) + t == t;
    while m > 0
      invariant u == Repeat(c, k) + t && Holds(a, p, u) && (m > 0 ==> k == n0 - m)
      invariant m <= 0 ==> k == if n0 > 0 then n0 else 0
      invariant OnlyWithin(a, p, p + |u| + 1)
      decreases m
    {
      Strichr(a, p, c, u);
      k := k + 1;
      assert [c] + u == Repeat(c, k) + t;
      u := [c] + u;
      m := m - 1;
    }
  }

  method StrFmt(a: array<char>, p: nat, size: int, fmt: Just, ghost t: string)
    requires Holds(a, p, t) && p + |Justify(t, size, fmt)| < a.Length
    modifies a
    ensures Holds(a, p, Justify(t, size, fmt)) && OnlyWithin(a, p, p + |Justify(t, size, fmt)| + 1)
  {
    hide Repeat, Holds;
    NoPadding(t);
    var len := Strlen(a, p, t);
    match fmt
    case RJust =>
      Prepend(a, p, ' ', size - len, t);
    case LJust =>
      Append(a, p, size - len, t);
    case RJust0 =>
      Prepend(a, p, '0', size - len, t);
    case Center =>
      Centre(a, p, size, len, t);
  }

  method Centre(a: array<char>, p: nat, size: int, len: nat, ghost t: string)
    requires Holds(a, p, t) && len == |t| && p + |Justify(t, size, Center)| < a.Length
    modifies a
    ensures Holds(a, p, Justify(t, size, Center)) && OnlyWithin(a, p, p + |Justify(t, size, Center)| + 1)
  {
    hide Repeat, Holds;
    NoPadding(t);
    // C division truncates towards zero
    var m := if size >= len then (size - len) / 2 else -((len - size) / 2);
    var n := size - (len + m);
    ghost var right := Repeat(' ', if m > 0 then m else 0);
    Append(a, p, m, t);
    Prepend(a, p, ' ', n, t + right);
    if size > len {
      assert Repeat(' ', n) + (t + right) == Repeat(' ', n) + t + right;
    } else {
      NoPadding(t + right);
    }
  }

  lemma NoPadding(t: string)
    ensures t + Repeat(' ', 0) == t && forall c :: Repeat(c, 0) + t == t
  {
  }
}
