/** The geometry of power-of-two blocks: alignment, nesting and buddies. */
module Blocks {
  import opened Bits

  /** `frame` can start a block of 2^order frames. */
  predicate Aligned(frame: nat, order: nat) {
    frame % Pow2(order) == 0
  }

  /** Block (f, j) and block (g, k) have no frame in common. */
  predicate Apart(f: nat, j: nat, g: nat, k: nat) {
    f + Pow2(j) <= g || g + Pow2(k) <= f
  }

  predicate Within(f: nat, j: nat, g: nat, k: nat) {
    g <= f && f + Pow2(j) <= g + Pow2(k)
  }

  /** The other half of the block of order + 1 that holds this one. */
  function Buddy(frame: nat, order: nat): nat {
    Xor(frame, Pow2(order))
  }

  lemma {:induction false} AlignedIntro(f: nat, k: nat, q: nat)
    requires f == q * Pow2(k)
    ensures Aligned(f, k) && Shr(f, k) == q
  {
    QuotientZero(Pow2(k), q);
    ShrUnique(f, k, q, 0);
  }

  lemma {:induction false} AlignedElim(f: nat, k: nat)
    requires Aligned(f, k)
    ensures f == Shr(f, k) * Pow2(k)
  {
    var p := Pow2(k);
    ShrUnique(f, k, f / p, 0);
  }

  lemma AlignedDown(f: nat, k: nat, j: nat)
    requires Aligned(f, k) && j <= k
    ensures Aligned(f, j)
    decreases k - j
  {
    if j < k {
      AlignedDown(f, k, j + 1);
      AlignedElim(f, j + 1);
      var q, p := Shr(f, j + 1), Pow2(j);
      assert q * (2 * p) == (2 * q) * p;
      AlignedIntro(f, j, 2 * q);
    }
  }

  lemma {:induction false} AlignedNext(f: nat, k: nat)
    requires Aligned(f, k)
    ensures Aligned(f + Pow2(k), k)
  {
    AlignedElim(f, k);
    AlignedIntro(f + Pow2(k), k, Shr(f, k) + 1);
  }

  /** Distinct multiples of 2^k are at least 2^k apart. */
  lemma {:induction false} AlignedGap(f: nat, g: nat, k: nat)
    requires Aligned(f, k) && Aligned(g, k) && f < g
    ensures f + Pow2(k) <= g
  {
    AlignedElim(f, k);
    AlignedElim(g, k);
    var a, b, p := Shr(f, k), Shr(g, k), Pow2(k);
    if b <= a {
      if b < a { MulStep(p, b, a); }
      assert false;
    }
    MulStep(p, a, b);
  }

  /** Two aligned blocks are apart, or the smaller lies within the larger. */
  lemma Laminar(f: nat, j: nat, g: nat, k: nat)
    requires Aligned(f, j) && Aligned(g, k) && j <= k
    ensures Apart(f, j, g, k) || Within(f, j, g, k)
  {
    AlignedDown(g, k, j);
    AlignedNext(g, k);
    AlignedDown(g + Pow2(k), k, j);
    if f < g {
      AlignedGap(f, g, j);
    } else if f < g + Pow2(k) {
      AlignedGap(f, g + Pow2(k), j);
    }
  }

  /** The even half of a pair. */
  lemma {:induction false} BuddyEven(f: nat, k: nat, t: nat)
    requires f == 2 * t * Pow2(k)
    ensures Aligned(f, k) && Aligned(f, k + 1) && Buddy(f, k) == f + Pow2(k)
  {
    AlignedIntro(f, k, 2 * t);
    assert Buddy(f, k) == f + Pow2(k) by { XorPow2(f, k); }
    Halved(t, Pow2(k));
    AlignedIntro(f, k + 1, t);
  }

  lemma Halved(t: nat, p: nat)
    ensures 2 * t * p == t * (2 * p)
  {
  }

  /** The odd half of a pair. */
  lemma {:induction false} BuddyOdd(f: nat, k: nat, t: nat)
    requires f == 2 * t * Pow2(k)
    ensures Aligned(f + Pow2(k), k) && !Aligned(f + Pow2(k), k + 1)
    ensures Buddy(f + Pow2(k), k) == f
  {
    var g, p := f + Pow2(k), Pow2(k);
    MulSucc(p, 2 * t);
    AlignedIntro(g, k, 2 * t + 1);
    assert Buddy(g, k) == f by { XorPow2(g, k); }
    if Aligned(g, k + 1) {
      BuddyEven(f, k, t);
      AlignedGap(f, g, k + 1);
    }
  }

  /** An aligned block and its buddy are the two halves of an aligned block. */
  lemma BuddyPair(f: nat, k: nat)
    requires Aligned(f, k)
    ensures Aligned(Buddy(f, k), k) && Buddy(Buddy(f, k), k) == f
    ensures if Aligned(f, k + 1) then Buddy(f, k) == f + Pow2(k)
            else f == Buddy(f, k) + Pow2(k) && Aligned(Buddy(f, k), k + 1)
  {
    AlignedElim(f, k);
    var q, p := Shr(f, k), Pow2(k);
    if q % 2 == 0 {
      BuddyEven(f, k, q / 2);
      BuddyOdd(f, k, q / 2);
    } else {
      MulSucc(p, q - 1);
      BuddyEven(f - p, k, q / 2);
      BuddyOdd(f - p, k, q / 2);
    }
  }
}
