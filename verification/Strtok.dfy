/** strspn.c, strcspn.c and strtok.c: a tokenizer that keeps its cursor between calls and writes
    terminators into the caller's buffer. */
module Strtok {
  import opened CStrings
  import opened Wrappers

  /** Length of the longest prefix of `s` whose characters are all in (or, for `inside` false, all
      outside) `chars`. */
  function Span(s: string, chars: string, inside: bool): (n: nat)
    ensures n <= |s| && (forall i :: 0 <= i < n ==> (s[i] in chars) == inside)
    ensures n < |s| ==> (s[n] in chars) != inside
  {
    if s == "" || (s[0] in chars) != inside then 0 else 1 + Span(s[1..], chars, inside)
  }

  /** A length with the two properties of `Span` is `Span`. */
  lemma SpanUnique(s: string, chars: string, inside: bool, n: nat)
    requires n <= |s| && (forall i :: 0 <= i < n ==> (s[i] in chars) == inside)
    requires n < |s| ==> (s[n] in chars) != inside
    ensures n == Span(s, chars, inside)
  {
  }

  method Strspn(a: array<char>, p: nat, s: string, ghost t: string) returns (i: nat)
    requires Holds(a, p, t) && Text(s)
    ensures i == Span(t, s, true)
  {
    i := 0;
    while a[p+i] != NUL
      invariant i <= |t| && forall k :: 0 <= k < i ==> t[k] in s
      decreases |t| - i
    {
      assert a[p+i] == a[p..p+|t|][i] == t[i];
      var j := 0;
      while At(s, j) != NUL && s[j] != a[p+i]
        invariant j <= |s| && a[p+i] !in s[..j]
        decreases |s| - j
      {
        j := j + 1;
      }
      if At(s, j) == NUL {
        break;
      }
      i := i + 1;
    }
    SpanUnique(t, s, true, i);
  }

  method Strcspn(a: array<char>, p: nat, s: string, ghost t: string) returns (i: nat)
    requires Holds(a, p, t) && Text(s)
    ensures i == Span(t, s, false)
  {
    i := 0;
    while a[p+i] != NUL
      invariant i <= |t| && forall k :: 0 <= k < i ==> t[k] !in s
      decreases |t| - i
    {
      assert a[p+i] == a[p..p+|t|][i] == t[i];
      var j := 0;
      while At(s, j) != NUL && s[j] != a[p+i]
        invariant j <= |s| && a[p+i] !in s[..j]
        decreases |s| - j
      {
        j := j + 1;
      }
      if At(s, j) != NUL {
        break;
      }
      i := i + 1;
    }
    SpanUnique(t, s, false, i);
  }

  // ---------- the tokens of a text ----------

  /** The token at `start..start+len-1`. */
  datatype Run = Run(start: nat, len: nat)

  /** The tokens found from position `at` on, by skipping delimiters and then taking the rest. */
  function Tokens(s: string, at: nat, delims: string): (r: seq<Run>)
    requires at <= |s|
    decreases |s| - at
  {
    var start := at + Span(s[at..], delims, true);
    var len := Span(s[start..], delims, false);
    if len == 0 then [] else [Run(start, len)] + Tokens(s, AfterToken(s, start + len), delims)
  }

  lemma TokenStep(s: string, at: nat, delims: string, start: nat, len: nat)
    requires at <= |s| && start == at + Span(s[at..], delims, true) && len == Span(s[start..], delims, false)
    ensures Tokens(s, at, delims)
         == if len == 0 then [] else [Run(start, len)] + Tokens(s, AfterToken(s, start + len), delims)
    ensures len == 0 ==> start == |s|
  {
    hide Tokens, Span;
    TokensUnfold(s, at, delims);
    NoTokenLeft(s[at..], delims);
    assert s[at..][start-at..] == s[start..];
  }

  lemma NoTokenLeft(t: string, delims: string)
    ensures var n := Span(t, delims, true); Span(t[n..], delims, false) == 0 ==> n == |t|
  {
    var n := Span(t, delims, true);
    assert n < |t| ==> t[n..][0] == t[n];
  }

  lemma TokensUnfold(s: string, at: nat, delims: string)
    requires at <= |s|
    ensures var start := at + Span(s[at..], delims, true);
      var len := Span(s[start..], delims, false);
      Tokens(s, at, delims)
      == if len == 0 then [] else [Run(start, len)] + Tokens(s, AfterToken(s, start + len), delims)
  {
    hide Span;
  }

  /** The cursor behind a token that ends at `end`: past the delimiter, if there is one. */
  function AfterToken(s: string, end: nat): nat {
    if end < |s| then end + 1 else end
  }

  /** A maximal stretch without delimiters. */
  ghost predicate MaximalRun(s: string, delims: string, r: Run) {
    && 0 < r.len && r.start + r.len <= |s|
    && (forall k :: r.start <= k < r.start + r.len ==> s[k] !in delims)
    && (r.start > 0 ==> s[r.start-1] in delims)
    && (r.start + r.len < |s| ==> s[r.start+r.len] in delims)
  }

  ghost predicate InRun(r: Run, k: int) {
    r.start <= k < r.start + r.len
  }

  /** The first token from `at` on, in positions of the whole text. */
  lemma FirstToken(s: string, at: nat, delims: string) returns (start: nat, len: nat)
    requires at <= |s|
    ensures start == at + Span(s[at..], delims, true) && start + len <= |s| && len == Span(s[start..], delims, false)
    ensures forall k :: at <= k < start ==> s[k] in delims
    ensures forall k :: start <= k < start + len ==> s[k] !in delims
    ensures start + len < |s| ==> s[start+len] in delims
    ensures len == 0 ==> start == |s|
  {
    start := at + Span(s[at..], delims, true);
    len := Span(s[start..], delims, false);
    assert forall k :: at <= k < |s| ==> s[k] == s[at..][k-at];
    assert forall k :: start <= k < |s| ==> s[k] == s[start..][k-start];
  }

  /** `at` starts the text, or stands behind a delimiter or at the end. */
  predicate Fresh(s: string, at: nat, delims: string) {
    at <= |s| && (at > 0 ==> s[at-1] in delims || at == |s|)
  }

  ghost predicate CoveredBy(ts: seq<Run>, k: int) {
    exists i :: 0 <= i < |ts| && InRun(ts[i], k)
  }

  /** The tokens are exactly the maximal delimiter-free stretches from `at` on, in ascending order. */
  ghost predicate AreRuns(s: string, at: nat, delims: string, ts: seq<Run>) {
    && (forall i :: 0 <= i < |ts| ==> at <= ts[i].start && MaximalRun(s, delims, ts[i]))
    && (forall i, j :: 0 <= i < j < |ts| ==> ts[i].start + ts[i].len < ts[j].start)
    && (forall k :: at <= k < |s| && s[k] !in delims ==> CoveredBy(ts, k))
  }

  lemma {:induction false} TokensAreRuns(s: string, at: nat, delims: string)
    requires Fresh(s, at, delims)
    ensures AreRuns(s, at, delims, Tokens(s, at, delims))
    decreases |s| - at
  {
    hide Span, AreRuns, Tokens;
    var start, len := FirstToken(s, at, delims);
    TokenStep(s, at, delims, start, len);
    if len == 0 {
      EmptyRuns(s, at, delims);
    } else {
      var next := AfterToken(s, start + len);
      TokensAreRuns(s, next, delims);
      RunsGrow(s, at, delims, Run(start, len), Tokens(s, next, delims));
    }
  }

  lemma EmptyRuns(s: string, at: nat, delims: string)
    requires at <= |s| && forall k :: at <= k < |s| ==> s[k] in delims
    ensures AreRuns(s, at, delims, [])
  {
  }

  lemma RunsGrow(s: string, at: nat, delims: string, r: Run, rest: seq<Run>)
    requires Fresh(s, at, delims) && at <= r.start && 0 < r.len && r.start + r.len <= |s|
    requires forall k :: at <= k < r.start ==> s[k] in delims
    requires forall k :: r.start <= k < r.start + r.len ==> s[k] !in delims
    requires r.start + r.len < |s| ==> s[r.start+r.len] in delims
    requires AreRuns(s, AfterToken(s, r.start + r.len), delims, rest)
    ensures AreRuns(s, at, delims, [r] + rest)
  {
    var ts, next := [r] + rest, AfterToken(s, r.start + r.len);
    assert MaximalRun(s, delims, r);
    assert forall i :: 0 < i < |ts| ==> ts[i] == rest[i-1];
    forall k | at <= k < |s| && s[k] !in delims ensures CoveredBy(ts, k) {
      if k < next {
        assert InRun(ts[0], k);
      } else {
        assert CoveredBy(rest, k);
        var i :| 0 <= i < |rest| && InRun(rest[i], k);
        assert InRun(ts[i+1], k);
      }
    }
  }

  /** There is only one such sequence. */
  lemma {:induction false} RunsUnique(s: string, at: nat, delims: string, ts: seq<Run>, us: seq<Run>)
    requires at <= |s| && AreRuns(s, at, delims, ts) && AreRuns(s, at, delims, us)
    ensures ts == us
    decreases |ts|
  {
    if ts == [] || us == [] {
      if ts != [] {
        NoRuns(s, at, delims, us, ts[0]);
      } else if us != [] {
        NoRuns(s, at, delims, ts, us[0]);
      }
    } else {
      FirstRun(s, at, delims, ts, us);
      FirstRun(s, at, delims, us, ts);
      SameLength(s, delims, ts[0], us[0]);
      var next := ts[0].start + ts[0].len;
      DropFirst(s, at, delims, ts);
      DropFirst(s, at, delims, us);
      RunsUnique(s, next, delims, ts[1..], us[1..]);
      assert ts == [ts[0]] + ts[1..] && us == [us[0]] + us[1..];
    }
  }

  lemma NoRuns(s: string, at: nat, delims: string, none: seq<Run>, r: Run)
    requires AreRuns(s, at, delims, none) && none == [] && at <= r.start
    ensures !MaximalRun(s, delims, r)
  {
    assert !CoveredBy(none, r.start);
  }

  lemma FirstRun(s: string, at: nat, delims: string, ts: seq<Run>, us: seq<Run>)
    requires AreRuns(s, at, delims, ts) && AreRuns(s, at, delims, us) && ts != [] && us != []
    ensures ts[0].start <= us[0].start
  {
    var k := us[0].start;
    assert MaximalRun(s, delims, us[0]) && s[k] !in delims;
    assert CoveredBy(ts, k);
  }

  lemma SameLength(s: string, delims: string, a: Run, b: Run)
    requires MaximalRun(s, delims, a) && MaximalRun(s, delims, b) && a.start == b.start
    ensures a == b
  {
  }

  lemma DropFirst(s: string, at: nat, delims: string, ts: seq<Run>)
    requires AreRuns(s, at, delims, ts) && ts != []
    ensures ts[0].start + ts[0].len <= |s| && AreRuns(s, ts[0].start + ts[0].len, delims, ts[1..])
  {
    var rest, e := ts[1..], ts[0].start + ts[0].len;
    assert MaximalRun(s, delims, ts[0]);
    forall k | e <= k < |s| && s[k] !in delims ensures CoveredBy(rest, k) {
      assert CoveredBy(ts, k);
      var i :| 0 <= i < |ts| && InRun(ts[i], k);
      assert rest[i-1] == ts[i];
    }
  }

  // ---------- the tokenizer ----------

  class Tokenizer {
    const buf: array<char>
    /** The cursor kept between calls. */
    var t: nat
    /** The text being taken apart and where it starts. */
    ghost var text: string
    ghost var base: nat

    /** The unread rest of the text is still in the buffer. */
    ghost predicate Valid()
      reads this, buf
    {
      base <= t <= base + |text| && Holds(buf, t, text[t-base..])
    }

    /** The tokens still to come. */
    ghost function Pending(delims: string): seq<Run>
      reads this, buf
      requires Valid()
    {
      Tokens(text, t - base, delims)
    }

    constructor (buf: array<char>)
      ensures this.buf == buf
    {
      this.buf := buf;
    }

    /** `strtok`: with a text it starts on it, without one it goes on. It returns the position of the
        next token, terminated in place, or nothing when there is none left. */
    method Next(p: Option<nat>, tok: string, ghost s: string) returns (r: Option<nat>)
      requires Text(tok)
      requires if p.Some? then Holds(buf, p.value, s) else Valid()
      modifies this, buf
      ensures Valid()
      ensures if p.Some? then text == s && base == p.value else text == old(text) && base == old(base)
      ensures var from := if p.Some? then 0 else old(t) - old(base);
        from <= |text| && base + from <= t && Took(Tokens(text, from, tok), r, Pending(tok))
        && OnlyWithin(buf, base + from + 1, base + |text|)
    {
      hide Span, Tokens, Took;
      if p.Some? {
        t := p.value;
        text, base := s, p.value;
        assert s[0..] == s;
      }
      r := Continue(tok);
    }

    /** The answer `r` is the head of the tokens that were pending, stored whole; the others are pending now. */
    ghost predicate Took(before: seq<Run>, r: Option<nat>, after: seq<Run>)
      reads this, buf
    {
      if before == [] then r == None && after == []
      else
        && r == Some(base + before[0].start) && after == before[1..]
        && base + before[0].start + before[0].len <= t && before[0].start + before[0].len <= |text|
        && Holds(buf, base + before[0].start, text[before[0].start..before[0].start+before[0].len])
    }

    /** Token `u` of the text lies before the cursor and is stored whole, with its terminator. */
    ghost predicate Stored(u: Run)
      reads this, buf
    {
      && u.start + u.len <= |text| && base + u.start + u.len <= t
      && Holds(buf, base + u.start, text[u.start..u.start+u.len])
    }

    twostate lemma StoredKept(u: Run)
      requires old(Stored(u)) && OnlyWithin(buf, old(t) + 1, buf.Length)
      requires old(t) <= t && text == old(text) && base == old(base)
      ensures Stored(u)
    {
      var lo, hi := base + u.start, base + u.start + u.len;
      assert buf[lo..hi] == old(buf[lo..hi]);
    }

    /** A caller that takes tokens until none is left gets all of them, in order, each stored whole in
        the end; a further call gets none. */
    method TakeAll(p: nat, tok: string, ghost s: string) returns (rs: seq<nat>)
      requires Text(tok) && Holds(buf, p, s)
      modifies this, buf
      ensures Valid() && text == s && base == p && Pending(tok) == []
      ensures var ts := Tokens(s, 0, tok);
        && |rs| == |ts|
        && forall i :: 0 <= i < |ts| ==> rs[i] == p + ts[i].start && Stored(ts[i])
    {
      hide Span, Tokens, Holds;
      ghost var ts := Tokens(s, 0, tok);
      rs := [];
      var r := Next(Some(p), tok, s);
      while r.Some?
        invariant Valid() && text == s && base == p && |rs| <= |ts|
        invariant r.Some? ==> |rs| < |ts| && r.value == p + ts[|rs|].start && Stored(ts[|rs|])
        invariant r.Some? ==> Pending(tok) == ts[|rs|+1..]
        invariant r.None? ==> |rs| == |ts| && Pending(tok) == []
        invariant forall i :: 0 <= i < |rs| ==> rs[i] == p + ts[i].start && Stored(ts[i])
        decreases |ts| - |rs|, r.Some?
      {
        rs := rs + [r.value];
        label before:
        r := Next(None, tok, "");
        forall i | 0 <= i < |rs| ensures Stored(ts[i]) {
          StoredKept@before(ts[i]);
        }
      }
    }

    method Continue(tok: string) returns (r: Option<nat>)
      requires Text(tok) && Valid()
      modifies `t, buf
      ensures Valid() && OnlyWithin(buf, old(t) + 1, base + |text|) && old(t) <= t
      ensures Took(old(Pending(tok)), r, Pending(tok))
    {
      hide Tokens, Holds, AfterToken, Text;
      var start, n := FindToken(tok);
      if n == 0 {
        return None;
      }
      ghost var tail := text[start-base..];
      TailSlices(text, start - base, n, tail);
      t := Terminate(buf, start, n, tail);
      return Some(start);
    }

    /** Where the next token starts, and its length. */
    method FindToken(tok: string) returns (start: nat, n: nat)
      requires Text(tok) && Valid()
      ensures t <= start <= start + n <= base + |text| && Holds(buf, start, text[start-base..])
      ensures Pending(tok) == if n == 0 then [] else
        [Run(start - base, n)] + Tokens(text, AfterToken(text, start - base + n), tok)
    {
      hide Span, Tokens, Holds, AfterToken, Text;
      ghost var from := t - base;
      ghost var rest := text[from..];
      var skip := Strspn(buf, t, tok, rest);
      start := t + skip;
      RestHolds(buf, t, rest, skip);
      ghost var tail := text[from+skip..];
      Suffix(text, from, skip);
      n := Strcspn(buf, start, tok, tail);
      TokenStep(text, from, tok, from + skip, n);
    }
  }

  /** The token at `start` is terminated if the text goes on, and the cursor is behind it. */
  method Terminate(buf: array<char>, start: nat, n: nat, ghost tail: string) returns (t: nat)
    requires Holds(buf, start, tail) && 0 < n <= |tail|
    modifies buf
    ensures start + n <= t == start + AfterToken(tail, n) && Holds(buf, t, tail[AfterToken(tail, n)..])
    ensures Holds(buf, start, tail[..n]) && OnlyWithin(buf, start + n, start + |tail|)
  {
    TokenInside(buf, start, tail, n);
    RestHolds(buf, start, tail, AfterToken(tail, n));
    t := start + n;
    if buf[t] != NUL {
      buf[t] := NUL;
      t := t + 1;
    }
  }

  lemma Suffix(s: string, i: nat, j: nat)
    requires i + j <= |s|
    ensures s[i..][j..] == s[i+j..]
  {
  }

  lemma TailSlices(s: string, at: nat, n: nat, tail: string)
    requires at <= |s| && tail == s[at..] && n <= |tail|
    ensures tail[n..] == s[at+n..] && tail[..n] == s[at..at+n]
    ensures at + AfterToken(tail, n) == AfterToken(s, at + n) <= |s| && AfterToken(tail, n) <= |tail|
    ensures tail[AfterToken(tail, n)..] == s[AfterToken(s, at + n)..]
  {
  }

  lemma TokenInside(a: array<char>, p: nat, s: string, n: nat)
    requires Holds(a, p, s) && n <= |s|
    ensures a[p..p+n] == s[..n] && Text(s[..n]) && (a[p+n] == NUL <==> n == |s|)
  {
    assert a[p..p+n] == a[p..p+|s|][..n];
    assert n < |s| ==> a[p+n] == a[p..p+|s|][n];
  }

  lemma RestHolds(a: array<char>, p: nat, s: string, n: nat)
    requires Holds(a, p, s) && n <= |s|
    ensures Holds(a, p + n, s[n..])
  {
    assert a[p+n..p+|s|] == a[p..p+|s|][n..];
  }
}
