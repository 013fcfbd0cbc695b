/** Bits of unbounded naturals, and the bitwise operations of 32-bit words. */
module WordBits {
  import opened Bits

  const WORDS: nat := 0x1_0000_0000

  type word = x: nat | x < WORDS

  /** Bit i, bit 0 the lowest. */
  function Bit(x: nat, i: nat): (r: nat)
    ensures r < 2
  {
    if i == 0 then x % 2 else Bit(x / 2, i - 1)
  }

  /** `a & b`, digit by digit. */
  function And(a: nat, b: nat): (r: nat)
    ensures r <= a && r <= b
  {
    if a == 0 || b == 0 then 0 else (if a % 2 == 1 && b % 2 == 1 then 1 else 0) + 2 * And(a / 2, b / 2)
  }

  /** `a | b`. */
  function Or(a: nat, b: nat): nat
    decreases a + b
  {
    if a == 0 && b == 0 then 0 else (if a % 2 == 1 || b % 2 == 1 then 1 else 0) + 2 * Or(a / 2, b / 2)
  }

  /** `!a` on a word. */
  function Not(a: word): word {
    WORDS - 1 - a
  }

  /** `a >> n`. */
  function ShiftRight(a: word, n: nat): word {
    Quotient(a, Pow2(n))
  }

  function Quotient(a: nat, p: nat): (r: nat)
    requires p >= 1
    ensures r <= a
  {
    DivBound(a, p);
    a / p
  }

  /** `a << n`: bits above the word are lost. */
  function ShiftLeft(a: word, n: nat): word {
    a * Pow2(n) % WORDS
  }

  /** The machine's rotation: the low n bits come back at the top. */
  function RotateRight(a: word, n: nat): word
    requires 0 < n < 32
  {
    var p, q := Pow2(n), Pow2(32 - n);
    RotationBound(a, n);
    Swapped(a, p, q)
  }

  /** Quotient and remainder by p, the remainder in front. */
  function Swapped(a: nat, p: nat, q: nat): nat
    requires p >= 1
  {
    a / p + a % p * q
  }

  // ----- sizes

  lemma DivBound(a: nat, p: nat)
    requires p >= 1
    ensures a / p <= a
  {
    var q := a / p;
    assert a == q * p + a % p;
    MulLe(q, 1, p);
  }

  lemma {:induction false} Pow2Sum(j: nat, k: nat)
    ensures Pow2(j + k) == Pow2(j) * Pow2(k)
  {
    if j > 0 {
      Pow2Sum(j - 1, k);
      DoubledFirst(Pow2(j - 1), Pow2(k));
    }
  }

  lemma DoubledFirst(p: nat, q: nat)
    ensures 2 * p * q == 2 * (p * q)
  {
  }

  lemma WordIsPow2()
    ensures Pow2(32) == WORDS
  {
    assert Pow2(8) == 0x100 && Pow2(16) == 0x1_0000 && Pow2(24) == 0x100_0000;
  }

  /** A remainder and a quotient put together the other way round. */
  lemma RotationBound(a: word, n: nat)
    requires 0 < n < 32
    ensures a / Pow2(n) < Pow2(32 - n)
    ensures Swapped(a, Pow2(n), Pow2(32 - n)) < WORDS
  {
    var p, q := Pow2(n), Pow2(32 - n);
    WordIsPow2();
    Pow2Sum(n, 32 - n);
    Turned(a, p, q);
  }

  lemma Turned(a: nat, p: nat, q: nat)
    requires p >= 1 && q >= 1 && a < p * q
    ensures a / p < q && Swapped(a, p, q) < p * q
  {
    var d, r := a / p, a % p;
    assert a == d * p + r;
    if d >= q { MulLe(p, q, d); }
    MulStep(q, r, p);
  }

  // ----- bits of the operations

  lemma {:induction false} BitAnd(a: nat, b: nat, i: nat)
    ensures Bit(And(a, b), i) == 1 <==> Bit(a, i) == 1 && Bit(b, i) == 1
    decreases i
  {
    if a == 0 || b == 0 {
      BitZero(i);
    } else if i > 0 {
      BitAnd(a / 2, b / 2, i - 1);
    }
  }

  lemma {:induction false} BitZero(i: nat)
    ensures Bit(0, i) == 0
  {
    if i > 0 { BitZero(i - 1); }
  }

  lemma {:induction false} BitOr(a: nat, b: nat, i: nat)
    ensures Bit(Or(a, b), i) == 1 <==> Bit(a, i) == 1 || Bit(b, i) == 1
    decreases i
  {
    if a == 0 && b == 0 {
      BitZero(i);
    } else if i > 0 {
      BitOr(a / 2, b / 2, i - 1);
    }
  }

  lemma {:induction false} BitXor(a: nat, b: nat, i: nat)
    ensures Bit(Xor(a, b), i) == 1 <==> Bit(a, i) != Bit(b, i)
    decreases i
  {
    XorStep(a, b);
    if i > 0 {
      BitXor(a / 2, b / 2, i - 1);
    }
  }

  lemma {:induction false} XorStep(a: nat, b: nat)
    ensures Xor(a, b) % 2 == 1 <==> a % 2 != b % 2
    ensures Xor(a, b) / 2 == Xor(a / 2, b / 2)
  {
  }

  /** Two numbers that add up to k ones have opposite bits. */
  lemma {:induction false} BitsOpposite(a: nat, c: nat, k: nat, i: nat)
    requires a + c + 1 == Pow2(k) && i < k
    ensures Bit(c, i) == 1 - Bit(a, i)
    decreases i
  {
    if i > 0 {
      OddHalves(a, c, Pow2(k - 1));
      BitsOpposite(a / 2, c / 2, k - 1, i - 1);
    }
  }

  lemma OddHalves(a: nat, c: nat, p: nat)
    requires a + c + 1 == 2 * p
    ensures a / 2 + c / 2 + 1 == p
  {
  }

  lemma {:induction false} BitNot(a: word, i: nat)
    requires i < 32
    ensures Bit(Not(a), i) == 1 - Bit(a, i)
  {
    WordIsPow2();
    var k := 32;
    BitsOpposite(a, Not(a), k, i);
  }

  lemma {:induction false} BitShifted(a: nat, n: nat, i: nat)
    ensures Bit(Quotient(a, Pow2(n)), i) == Bit(a, i + n)
    decreases n
  {
    if n > 0 {
      DivTwice(a, Pow2(n - 1));
      BitShifted(a / 2, n - 1, i);
    }
  }

  lemma DivTwice(a: nat, p: nat)
    requires p >= 1
    ensures Quotient(a, 2 * p) == Quotient(a / 2, p)
  {
    var m := a / 2;
    var q, r := m / p, m % p;
    assert m == q * p + r;
    var s := a % 2;
    assert a == 2 * (q * p + r) + s;
    assert q * (2 * p) == 2 * (q * p);
    DivUnique(2 * p, q, 2 * r + s, a);
  }

  lemma DivUnique(p: nat, q: nat, r: nat, x: nat)
    requires x == q * p + r && r < p
    ensures x / p == q
  {
    assert x == x / p * p + x % p;
    QuotientUnique(p, q, r, x / p, x);
  }

  /** Low bits from a, high bits from b. */
  lemma {:induction false} BitJoined(a: nat, b: nat, m: nat, i: nat)
    requires a < Pow2(m)
    ensures Bit(a + b * Pow2(m), i) == if i < m then Bit(a, i) else Bit(b, i - m)
    decreases m
  {
    if m > 0 {
      Doubled(b, Pow2(m - 1));
      BitOfSum(a, b * Pow2(m - 1), i);
      if i > 0 { BitJoined(a / 2, b, m - 1, i - 1); }
    } else {
      assert b * Pow2(0) == b;
    }
  }

  lemma Doubled(b: nat, p: nat)
    ensures b * (2 * p) == 2 * (b * p)
  {
  }

  /** Adding an even number leaves the last bit. */
  lemma {:induction false} BitOfSum(a: nat, c: nat, i: nat)
    ensures Bit(a + 2 * c, i) == if i == 0 then Bit(a, 0) else Bit(a / 2 + c, i - 1)
  {
    assert (a + 2 * c) % 2 == a % 2 && (a + 2 * c) / 2 == a / 2 + c;
  }

  lemma {:induction false} BitLow(a: nat, n: nat, i: nat)
    requires i < n
    ensures Bit(a % Pow2(n), i) == Bit(a, i)
  {
    var low, high := DivideBy(a, Pow2(n));
    BitJoined(low, high, n, i);
  }

  lemma DivideBy(a: nat, p: nat) returns (low: nat, high: nat)
    requires p > 0
    ensures low == a % p && low < p && a == low + high * p
  {
    low, high := a % p, a / p;
  }

  /** Rotation to the right by n brings down bit i + n, around the end of the word. */
  lemma {:induction false} BitRotated(a: word, n: nat, i: nat)
    requires 0 < n < 32 && i < 32
    ensures Bit(RotateRight(a, n), i) == Bit(a, if i + n < 32 then i + n else i + n - 32)
  {
    RotationBound(a, n);
    var q, r := Quotient(a, Pow2(n)), a % Pow2(n);
    BitJoined(q, r, 32 - n, i);
    if i < 32 - n {
      BitShifted(a, n, i);
    } else {
      BitLow(a, n, i - (32 - n));
    }
  }

  lemma {:induction false} BitAbove(a: nat, k: nat, i: nat)
    requires a < Pow2(k) && i >= k
    ensures Bit(a, i) == 0
    decreases k
  {
    if k == 0 { BitZero(i); } else { BitAbove(a / 2, k - 1, i - 1); }
  }

  /** A number is determined by its bits. */
  lemma {:induction false} BitsDetermine(a: nat, b: nat, k: nat)
    requires a < Pow2(k) && b < Pow2(k) && forall i :: 0 <= i < k ==> Bit(a, i) == Bit(b, i)
    ensures a == b
  {
    if k > 0 {
      assert Bit(a, 0) == Bit(b, 0);
      forall i | 0 <= i < k - 1 ensures Bit(a / 2, i) == Bit(b / 2, i) {
        assert Bit(a, i + 1) == Bit(b, i + 1);
      }
      BitsDetermine(a / 2, b / 2, k - 1);
    }
  }

  lemma {:induction false} OrBound(a: nat, b: nat, k: nat)
    requires a < Pow2(k) && b < Pow2(k)
    ensures Or(a, b) < Pow2(k)
  {
    if k > 0 { OrBound(a / 2, b / 2, k - 1); }
  }

  lemma {:induction false} XorBound(a: nat, b: nat, k: nat)
    requires a < Pow2(k) && b < Pow2(k)
    ensures Xor(a, b) < Pow2(k)
  {
    if k > 0 { XorBound(a / 2, b / 2, k - 1); }
  }

  lemma {:induction false} BitShiftedLeft(a: word, m: nat, i: nat)
    requires i < 32
    ensures Bit(ShiftLeft(a, m), i) == if i < m then 0 else Bit(a, i - m)
  {
    WordIsPow2();
    BitLow(a * Pow2(m), 32, i);
    BitJoined(0, a, m, i);
    if i < m { BitZero(i); }
  }
}
