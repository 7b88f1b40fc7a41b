/** NUL-terminated strings in character arrays, and the in-place routines of strcat.c and strichr.c.

    A string value is the text before the terminator. Methods take the text held in the array as a
    ghost argument. */
module CStrings {

  const NUL: char := '\0'

  /** Character `i` of a string, the terminator included. */
  function At(s: string, i: nat): char {
    if i < |s| then s[i] else NUL
  }

  predicate Text(s: string) {
    NUL !in s
  }

  /** The string `s` is stored at position `p` of `a`. */
  ghost predicate Holds(a: array<char>, p: nat, s: string)
    reads a
  {
    Text(s) && p + |s| < a.Length && a[p..p+|s|] == s && a[p+|s|] == NUL
  }

  /** Nothing outside `lo..hi-1` changed. */
  twostate predicate OnlyWithin(a: array<char>, lo: nat, hi: nat)
    reads a
  {
    forall i :: 0 <= i < a.Length && (i < lo || hi <= i) ==> a[i] == old(a[i])
  }

  lemma TextEnds(s: string, i: nat)
    requires Text(s) && i <= |s|
    ensures At(s, i) == NUL <==> i == |s|
  {
  }

  lemma SlicesJoin(a: array<char>, lo: nat, mid: nat, hi: nat)
    requires lo <= mid <= hi <= a.Length
    ensures a[lo..hi] == a[lo..mid] + a[mid..hi]
  {
    var left, right := a[lo..mid], a[mid..hi];
    forall k | 0 <= k < hi - lo ensures a[lo..hi][k] == (left + right)[k] {
      assert k < mid - lo ==> left[k] == a[lo+k];
      assert k >= mid - lo ==> right[k-(mid-lo)] == a[lo+k];
    }
  }

  method Strlen(a: array<char>, p: nat, ghost s: string) returns (n: nat)
    requires Holds(a, p, s)
    ensures n == |s|
  {
    n := 0;
    while a[p+n] != NUL
      invariant n <= |s|
      decreases |s| - n
    {
      assert a[p+n] == a[p..p+|s|][n];
      n := n + 1;
    }
  }

  method Strcat(dst: array<char>, p: nat, src: string, ghost s: string)
    requires Holds(dst, p, s) && Text(src) && p + |s| + |src| < dst.Length
    modifies dst
    ensures Holds(dst, p, s + src) && OnlyWithin(dst, p + |s|, p + |s| + |src| + 1)
  {
    var n := Strlen(dst, p, s);
    var d := p + n;
    var i := 0;
    while At(src, i) != NUL
      invariant i <= |src| && d == p + |s| + i
      invariant dst[p..p+|s|] == s && dst[p+|s|..d] == src[..i]
      invariant forall k :: 0 <= k < dst.Length && (k < p + |s| || d <= k) ==> dst[k] == old(dst[k])
      decreases |src| - i
    {
      dst[d] := src[i];
      d, i := d + 1, i + 1;
    }
    dst[d] := NUL;
    TextEnds(src, i);
    SlicesJoin(dst, p, p + |s|, d);
  }

  /** Shifts the string one place up and puts `c` in front. */
  method Strichr(a: array<char>, p: nat, c: char, ghost s: string)
    requires Holds(a, p, s) && c != NUL && p + |s| + 1 < a.Length
    modifies a
    ensures Holds(a, p, [c] + s) && OnlyWithin(a, p, p + |s| + 2)
  {
    var n := Strlen(a, p, s);
    ghost var b := a[p..p+n];
    ShiftUp(a, p, n);
    a[p] := c;
    forall k | 0 <= k < n ensures a[p+1+k] == s[k] {
      assert b[k] == s[k];
    }
    assert a[p..p+n+1] == [c] + s;
  }

  /** The backward loop: `n` characters and the terminator behind them move one place up. */
  method ShiftUp(a: array<char>, p: nat, n: nat)
    requires p + n + 1 < a.Length
    modifies a
    ensures forall k :: p < k <= p + n + 1 ==> a[k] == old(a[k-1])
    ensures forall k :: 0 <= k < a.Length && (k <= p || p + n + 1 < k) ==> a[k] == old(a[k])
  {
    var t: int := p + n;
    while t >= p
      invariant p - 1 <= t <= p + n
      invariant forall k :: 0 <= k < a.Length && (k <= t || k == p || p + n + 1 < k) ==> a[k] == old(a[k])
      invariant forall k :: t + 1 < k <= p + n + 1 ==> a[k] == old(a[k-1])
    {
      a[t+1] := a[t];
      t := t - 1;
    }
  }

  method Strcpy(dst: array<char>, p: nat, src: string)
    requires Text(src) && p + |src| < dst.Length
    modifies dst
    ensures Holds(dst, p, src) && OnlyWithin(dst, p, p + |src| + 1)
  {
    var i := 0;
    while At(src, i) != NUL
      invariant i <= |src| && dst[p..p+i] == src[..i] && OnlyWithin(dst, p, p + i)
      decreases |src| - i
    {
      dst[p+i] := src[i];
      i := i + 1;
    }
    dst[p+i] := NUL;
  }
}
