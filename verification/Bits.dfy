/** 32-bit register words, and `fls` and `ffs` of irq.h. */
module Bits {

  type Word = bv32

  /** `1 << k` */
  function Mask(k: nat): Word
    requires k < 32
  {
    (1 as Word) << k
  }

  predicate Bit(w: Word, k: nat)
    requires k < 32
  {
    w & Mask(k) != 0
  }

  lemma MaskNonzero(k: nat)
    requires k < 32
    ensures Mask(k) != 0
  {
  }

  lemma MasksApart(k: nat, j: nat)
    requires j < k < 32
    ensures Mask(k) & Mask(j) == 0
  {
  }

  lemma OnlyBit(k: nat, j: nat)
    requires k < 32 && j < 32
    ensures Mask(k) & Mask(j) == if j == k then Mask(k) else 0
    ensures Bit(Mask(k), j) <==> j == k
  {
    hide Mask;
    MaskNonzero(k);
    if j < k {
      MasksApart(k, j);
    } else if k < j {
      MasksApart(j, k);
    }
  }

  /** `w | (1 << k)` */
  function SetAt(w: Word, k: nat): Word
    requires k < 32
  {
    w | Mask(k)
  }

  /** `w & ~(1 << k)` */
  function ClearAt(w: Word, k: nat): Word
    requires k < 32
  {
    w & !Mask(k)
  }

  lemma SetElsewhere(w: Word, k: nat, j: nat)
    requires k < 32 && j < 32 && k != j
    ensures SetAt(w, k) & Mask(j) == w & Mask(j)
  {
    hide Mask;
    OnlyBit(k, j);
    OrMeets(w, Mask(k), Mask(j));
  }

  lemma SetThere(w: Word, k: nat)
    requires k < 32
    ensures SetAt(w, k) & Mask(k) == Mask(k) != 0
  {
    hide Mask;
    MaskNonzero(k);
    OrMeets(w, Mask(k), Mask(k));
  }

  lemma SetBit(w: Word, k: nat, j: nat)
    requires k < 32 && j < 32
    ensures Bit(SetAt(w, k), j) <==> j == k || Bit(w, j)
  {
    hide Mask, SetAt;
    if j == k {
      SetThere(w, k);
    } else {
      SetElsewhere(w, k, j);
    }
  }

  lemma ClearElsewhere(w: Word, k: nat, j: nat)
    requires k < 32 && j < 32 && k != j
    ensures ClearAt(w, k) & Mask(j) == w & Mask(j)
  {
    hide Mask;
    OnlyBit(k, j);
    AndNotMeets(w, Mask(k), Mask(j));
  }

  lemma ClearThere(w: Word, k: nat)
    requires k < 32
    ensures ClearAt(w, k) & Mask(k) == 0
  {
    hide Mask;
    AndNotMeets(w, Mask(k), Mask(k));
  }

  lemma ClearBit(w: Word, k: nat, j: nat)
    requires k < 32 && j < 32
    ensures Bit(ClearAt(w, k), j) <==> j != k && Bit(w, j)
  {
    hide Mask, ClearAt;
    if j == k {
      ClearThere(w, k);
    } else {
      ClearElsewhere(w, k, j);
    }
  }

  lemma OrMeets(w: Word, m: Word, n: Word)
    ensures m & n == 0 ==> (w | m) & n == w & n
    ensures (w | m) & m == m
  {
  }

  lemma AndNotMeets(w: Word, m: Word, n: Word)
    ensures m & n == 0 ==> (w & !m) & n == w & n
    ensures (w & !m) & m == 0
  {
  }

  // ---------- the lowest set bit ----------

  /** Zeros from bit `k - 1` down to the first one: what the `clz` instruction counts, for `k` 32. */
  function LeadingZeros(w: Word, k: nat): (r: nat)
    requires k <= 32
    ensures r <= k
  {
    if k == 0 || Bit(w, k - 1) then 0 else 1 + LeadingZeros(w, k - 1)
  }

  function Fls(w: Word): (r: nat)
    ensures r <= 32
  {
    32 - LeadingZeros(w, 32)
  }

  /** `fls(word & -word)`, or 0 for a zero word. */
  function Ffs(w: Word): (r: nat)
    ensures r <= 32
  {
    if w == 0 then 0 else Fls(w & -w)
  }

  /** `(1 << k) - 1` */
  function Low(k: nat): Word
    requires k < 32
  {
    Mask(k) - 1
  }

  predicate NoneBelow(w: Word, k: nat)
    requires k < 32
  {
    w & Low(k) == 0
  }

  lemma NoneBelowStep(w: Word, k: nat)
    requires k < 31 && !Bit(w, k) && NoneBelow(w, k)
    ensures NoneBelow(w, k + 1)
  {
  }

  lemma NoneBelowTop(w: Word)
    requires NoneBelow(w, 31)
    ensures Bit(w, 31) || w == 0
  {
  }

  lemma NoneBelowMeans(w: Word, k: nat, j: nat)
    requires j < k < 32 && NoneBelow(w, k)
    ensures !Bit(w, j)
  {
    hide Mask, Low;
    LowMask(k, j);
    Within(w, Low(k), Mask(j));
    assert w & Mask(j) == 0 & Mask(j);
    MeetsNothing(Mask(j));
  }

  lemma MeetsNothing(n: Word)
    ensures 0 & n == 0
  {
  }

  lemma LowMask(k: nat, j: nat)
    requires j < k < 32
    ensures Mask(j) & Low(k) == Mask(j)
  {
  }

  lemma Within(w: Word, x: Word, n: Word)
    requires n & x == n
    ensures w & n == (w & x) & n
  {
  }

  lemma NoneBelowZero(w: Word)
    ensures NoneBelow(w, 0)
  {
  }

  /** Every nonzero word has a lowest set bit. */
  lemma {:induction false} LowestExists(w: Word, k: nat) returns (r: nat)
    requires k < 32 && w != 0 && NoneBelow(w, k)
    ensures r < 32 && Bit(w, r) && NoneBelow(w, r)
    decreases 32 - k
  {
    hide Bit, NoneBelow;
    if k == 31 {
      NoneBelowTop(w);
      r := k;
    } else if Bit(w, k) {
      r := k;
    } else {
      NoneBelowStep(w, k);
      r := LowestExists(w, k + 1);
    }
  }

  /** `word & -word` keeps exactly the lowest set bit. */
  lemma Isolated(w: Word, k: nat)
    requires k < 32 && Bit(w, k) && NoneBelow(w, k)
    ensures w & -w == Mask(k)
  {
  }

  lemma {:induction false} MaskZeros(n: nat, k: nat)
    requires n < k <= 32
    ensures LeadingZeros(Mask(n), k) == k - 1 - n
  {
    hide Bit, Mask;
    OnlyBit(n, k - 1);
    if n < k - 1 {
      MaskZeros(n, k - 1);
    }
  }

  /** `ffs` is one more than the index of the lowest set bit, and 0 exactly for a zero word. */
  lemma FfsIsLowest(w: Word)
    ensures Ffs(w) == 0 <==> w == 0
    ensures w != 0 ==> Bit(w, Ffs(w) - 1) && forall j :: 0 <= j < Ffs(w) - 1 ==> !Bit(w, j)
  {
    hide Bit, NoneBelow, Mask, LeadingZeros;
    if w != 0 {
      NoneBelowZero(w);
      var r := LowestExists(w, 0);
      Isolated(w, r);
      MaskZeros(r, 32);
      assert Ffs(w) - 1 == r;
      forall j | 0 <= j < r ensures !Bit(w, j) {
        NoneBelowMeans(w, r, j);
      }
    }
  }
}
