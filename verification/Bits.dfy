/** Powers of two and bitwise exclusive or on unbounded naturals. */
module Bits {

  function Pow2(k: nat): (r: nat)
    ensures r >= 1
  {
    if k == 0 then 1 else 2 * Pow2(k - 1)
  }

  lemma {:induction false} Pow2Monotone(j: nat, k: nat)
    requires j <= k
    ensures Pow2(j) <= Pow2(k)
    ensures j < k ==> 2 * Pow2(j) <= Pow2(k)
    decreases k - j
  {
    if j < k {
      Pow2Monotone(j, k - 1);
    }
  }

  /** `a ^ b`, digit by digit. */
  function Xor(a: nat, b: nat): nat
    decreases a + b
  {
    if a == 0 && b == 0 then 0 else (a % 2 + b % 2) % 2 + 2 * Xor(a / 2, b / 2)
  }

  lemma {:induction false} XorZero(a: nat)
    ensures Xor(a, 0) == a
  {
    if a != 0 {
      XorZero(a / 2);
    }
  }

  /** `x >> k`. */
  function Shr(x: nat, k: nat): nat {
    if k == 0 then x else Shr(x / 2, k - 1)
  }

  /** Shifting once more at the end is the same as shifting once more at the start. */
  lemma ShrSucc(x: nat, k: nat)
    ensures Shr(x, k + 1) == Shr(x, k) / 2
  {
    if k > 0 {
      ShrSucc(x / 2, k - 1);
    }
  }

  /** Toggling bit k adds or subtracts 2^k, according to that bit. */
  lemma {:induction false} XorPow2(a: nat, k: nat)
    ensures Shr(a, k) % 2 == 0 ==> Xor(a, Pow2(k)) == a + Pow2(k)
    ensures Shr(a, k) % 2 == 1 ==> Xor(a, Pow2(k)) == a - Pow2(k)
  {
    if k == 0 {
      XorZero(a / 2);
    } else {
      XorPow2(a / 2, k - 1);
    }
  }

  /** A shift is a division with remainder. */
  lemma {:induction false} ShrBounds(x: nat, k: nat)
    ensures Shr(x, k) * Pow2(k) <= x < Shr(x, k) * Pow2(k) + Pow2(k)
  {
    if k > 0 {
      ShrBounds(x / 2, k - 1);
      HalfBounds(x, Shr(x / 2, k - 1), Pow2(k - 1));
    }
  }

  lemma HalfBounds(x: nat, q: nat, p: nat)
    requires q * p <= x / 2 < q * p + p
    ensures q * (2 * p) <= x < q * (2 * p) + 2 * p
  {
    Regroup(q, p);
    var m := q * p;
    assert 2 * m <= x < 2 * m + 2 * p;
  }

  lemma Regroup(q: nat, p: nat)
    ensures q * (2 * p) == 2 * (q * p)
  {
  }

  lemma SmallMod(x: nat, m: nat)
    requires x < m
    ensures x % m == x
  {
    assert x / m == 0;
  }

  lemma MulSucc(p: nat, a: nat)
    ensures (a + 1) * p == a * p + p
  {
  }

  lemma MulStep(p: nat, a: nat, b: nat)
    requires a < b
    ensures a * p + p <= b * p
  {
    var d := b - a - 1;
    assert b * p == a * p + p + d * p;
    assert d * p >= 0;
  }

  lemma QuotientUnique(p: nat, q: nat, r: nat, s: nat, x: nat)
    requires x == q * p + r && r < p
    requires s * p <= x < s * p + p
    ensures s == q
  {
    if s < q {
      MulStep(p, s, q);
    } else if s > q {
      MulStep(p, q, s);
    }
  }

  lemma QuotientZero(p: nat, q: nat)
    requires p >= 1
    ensures q * p % p == 0
  {
    var x := q * p;
    var r := x % p;
    assert x == x / p * p + r;
    if r != 0 {
      if q <= x / p { MulLe(p, q, x / p); } else { MulStep(p, x / p, q); }
    }
  }

  lemma MulLe(p: nat, a: nat, b: nat)
    requires a <= b
    ensures a * p <= b * p
  {
    if a < b { MulStep(p, a, b); }
  }

  lemma RemainderUnique(p: nat, q: nat, r: nat, x: nat)
    requires x == q * p + r && r < p
    ensures x % p == r
  {
    assert x == x / p * p + x % p;
    QuotientUnique(p, q, r, x / p, x);
  }

  lemma RemaindersDiffer(p: nat, x: nat, y: nat)
    requires x < y < x + p
    ensures x % p != y % p
  {
    var a, b := x / p, y / p;
    assert x == a * p + x % p && y == b * p + y % p;
    if a < b { MulStep(p, a, b); } else { MulLe(p, b, a); }
  }

  /** The quotient in a division by 2^k is the shift. */
  lemma {:induction false} ShrUnique(x: nat, k: nat, q: nat, r: nat)
    requires x == q * Pow2(k) + r && r < Pow2(k)
    ensures Shr(x, k) == q
  {
    ShrBounds(x, k);
    QuotientUnique(Pow2(k), q, r, Shr(x, k), x);
  }
}
