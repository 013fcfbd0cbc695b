/** The functions and constants of SHA-256 against the words of FIPS 180-4: bit by bit, and by the roots of primes. */
module Sha256Standard {
  import opened Bits
  import opened WordBits
  import opened Bytes
  import opened Sha256

  // ----- the logical functions, bit by bit (sections 3.2 and 4.1.2)

  /** Ch chooses between y and z by the bit of x. */
  lemma {:induction false} ChBits(x: word, y: word, z: word, i: nat)
    requires i < 32
    ensures Bit(PROGRAM.ch(x, y, z), i) == if Bit(x, i) == 1 then Bit(y, i) else Bit(z, i)
  {
    BitXor(And(x, y), And(Not(x), z), i);
    BitAnd(x, y, i);
    BitAnd(Not(x), z, i);
    BitNot(x, i);
  }

  lemma {:induction false} Xor3Bits(x: word, y: word, z: word, i: nat)
    ensures Bit(Xor3(x, y, z), i) == (Bit(x, i) + Bit(y, i) + Bit(z, i)) % 2
  {
    BitXor(x, y, i);
    BitXor(Xor(x, y), z, i);
  }

  /** Maj is what at least two of the three have. */
  lemma {:induction false} MajBits(x: word, y: word, z: word, i: nat)
    requires i < 32
    ensures Bit(PROGRAM.maj(x, y, z), i) == if Bit(x, i) + Bit(y, i) + Bit(z, i) >= 2 then 1 else 0
  {
    Xor3Bits(And(x, y), And(x, z), And(y, z), i);
    BitAnd(x, y, i);
    BitAnd(x, z, i);
    BitAnd(y, z, i);
  }

  /** Rotation to the right by n brings down bit i + n, around the end of the word. */
  function Around(i: nat, n: nat): nat {
    (i + n) % 32
  }

  lemma {:induction false} Rotated(x: word, n: nat, i: nat)
    requires 0 < n < 32 && i < 32
    ensures Bit(RotateRight(x, n), i) == Bit(x, Around(i, n))
  {
    BitRotated(x, n, i);
  }

  lemma {:induction false} BigSigma0Bits(x: word, i: nat)
    requires i < 32
    ensures Bit(PROGRAM.bigSigma0(x), i)
         == (Bit(x, Around(i, 2)) + Bit(x, Around(i, 13)) + Bit(x, Around(i, 22))) % 2
  {
    Xor3Bits(RotateRight(x, 2), RotateRight(x, 13), RotateRight(x, 22), i);
    Rotated(x, 2, i);
    Rotated(x, 13, i);
    Rotated(x, 22, i);
  }

  lemma {:induction false} BigSigma1Bits(x: word, i: nat)
    requires i < 32
    ensures Bit(PROGRAM.bigSigma1(x), i)
         == (Bit(x, Around(i, 6)) + Bit(x, Around(i, 11)) + Bit(x, Around(i, 25))) % 2
  {
    Xor3Bits(RotateRight(x, 6), RotateRight(x, 11), RotateRight(x, 25), i);
    Rotated(x, 6, i);
    Rotated(x, 11, i);
    Rotated(x, 25, i);
  }

  lemma {:induction false} SmallSigma0Bits(x: word, i: nat)
    requires i < 32
    ensures Bit(PROGRAM.smallSigma0(x), i)
         == (Bit(x, Around(i, 7)) + Bit(x, Around(i, 18)) + (if i + 3 < 32 then Bit(x, i + 3) else 0)) % 2
  {
    Xor3Bits(RotateRight(x, 7), RotateRight(x, 18), ShiftRight(x, 3), i);
    Rotated(x, 7, i);
    Rotated(x, 18, i);
    Shifted(x, 3, i);
  }

  lemma {:induction false} SmallSigma1Bits(x: word, i: nat)
    requires i < 32
    ensures Bit(PROGRAM.smallSigma1(x), i)
         == (Bit(x, Around(i, 17)) + Bit(x, Around(i, 19)) + (if i + 10 < 32 then Bit(x, i + 10) else 0)) % 2
  {
    Xor3Bits(RotateRight(x, 17), RotateRight(x, 19), ShiftRight(x, 10), i);
    Rotated(x, 17, i);
    Rotated(x, 19, i);
    Shifted(x, 10, i);
  }

  lemma {:induction false} Shifted(x: word, n: nat, i: nat)
    requires i < 32
    ensures Bit(ShiftRight(x, n), i) == if i + n < 32 then Bit(x, i + n) else 0
  {
    BitShifted(x, n, i);
    WordIsPow2();
    if i + n >= 32 { BitAbove(x, 32, i + n); }
  }

  /** Bit i of a number is its digit of weight 2^i. */
  lemma {:induction false} BitIsDigit(x: nat, i: nat)
    ensures Bit(x, i) == Quotient(x, Pow2(i)) % 2
  {
    BitShifted(x, i, 0);
  }

  // ----- words and bytes, most significant first (section 3.1)

  function Number(a: nat, b: nat, c: nat, d: nat): nat {
    0x100_0000 * a + 0x1_0000 * b + 0x100 * c + d
  }

  /** The first 16 words of the schedule. */
  lemma WordOfBytes(block: seq<byte>, i: nat)
    requires 4 * i + 3 < |block|
    ensures WordAt(block, i) == Number(block[4 * i], block[4 * i + 1], block[4 * i + 2], block[4 * i + 3])
  {
    FourBytes(block[4 * i..4 * i + 4]);
  }

  lemma {:induction false} FourBytes(s: seq<byte>)
    requires |s| == 4
    ensures BytesValue(s) == Number(s[0], s[1], s[2], s[3])
  {
    var c, b, a := s[..3], s[..2], s[..1];
    assert s[..|s| - 1] == c && c[..|c| - 1] == b && b[..|b| - 1] == a && a[..|a| - 1] == [];
    var p: nat, q: nat, r: nat, t: nat := s[0], s[1], s[2], s[3];
    assert BytesValue(a) == p;
    assert BytesValue(b) == 0x100 * p + q;
    assert BytesValue(c) == 0x1_0000 * p + 0x100 * q + r;
  }

  // ----- the first 64 primes

  ghost predicate IsPrime(p: nat) {
    p >= 2 && forall d: nat, e: nat :: d >= 2 && e >= 2 ==> d * e != p
  }

  ghost predicate NextPrime(p: nat, q: nat) {
    p < q && IsPrime(p) && IsPrime(q) && forall r :: p < r < q ==> !IsPrime(r)
  }

  const PRIMES: seq<nat> :=
    [2, 3, 5, 7, 11, 13, 17, 19]
    + [23, 29, 31, 37, 41, 43, 47, 53]
    + [59, 61, 67, 71, 73, 79, 83, 89]
    + [97, 101, 103, 107, 109, 113, 127, 131]
    + [137, 139, 149, 151, 157, 163, 167, 173]
    + [179, 181, 191, 193, 197, 199, 211, 223]
    + [227, 229, 233, 239, 241, 251, 257, 263]
    + [269, 271, 277, 281, 283, 293, 307, 311]

  /** A divisor that every composite number below 324 has. */
  predicate SmallFactor(p: nat) {
    || (p > 2 && p % 2 == 0) || (p > 3 && p % 3 == 0) || (p > 5 && p % 5 == 0) || (p > 7 && p % 7 == 0)
    || (p > 11 && p % 11 == 0) || (p > 13 && p % 13 == 0) || (p > 17 && p % 17 == 0)
  }

  lemma MultipleOf(d: nat, e: nat)
    requires d in {2, 3, 5, 7, 11, 13, 17} && e >= 2
    ensures SmallFactor(d * e)
  {
    QuotientZero(d, e);
    assert (d * e) % d == 0 && d * e >= 2 * d;
    Factored(d * e, d);
  }

  lemma Factored(p: nat, d: nat)
    requires d in {2, 3, 5, 7, 11, 13, 17} && p > d && p % d == 0
    ensures SmallFactor(p)
  {
  }

  lemma Divided(p: nat, d: nat)
    requires d in {2, 3, 5, 7, 11, 13, 17} && p > d && p % d == 0
    ensures !IsPrime(p)
  {
    assert d * (p / d) == p;
  }

  lemma CompositeIff(p: nat)
    requires 2 <= p < 324
    ensures IsPrime(p) <==> !SmallFactor(p)
  {
    if SmallFactor(p) {
      var d :| d in {2, 3, 5, 7, 11, 13, 17} && p > d && p % d == 0;
      Divided(p, d);
    } else {
      forall d: nat, e: nat | d >= 2 && e >= 2 ensures d * e != p {
        if d * e == p {
          if d <= e { NoSmallDivisor(p, d, e); } else { NoSmallDivisor(p, e, d); }
        }
      }
    }
  }

  lemma NoSmallDivisor(p: nat, d: nat, e: nat)
    requires p < 324 && 2 <= d <= e && !SmallFactor(p)
    ensures d * e != p
  {
    if d * e == p {
      if d >= 18 { SquareBound(d, e); }
      var q := SmallPrimeOf(d);
      Cofactor(p, d, e, q);
    }
  }

  lemma SquareBound(d: nat, e: nat)
    requires 18 <= d <= e
    ensures d * e >= 324
  {
    assert (d - 18) * e >= 0;
  }

  lemma SmallPrimeOf(d: nat) returns (q: nat)
    requires 2 <= d < 18
    ensures q in {2, 3, 5, 7, 11, 13, 17} && d % q == 0
  {
    q := if d % 2 == 0 then 2 else if d % 3 == 0 then 3 else if d == 5 then 5 else if d == 7 then 7
         else if d == 11 then 11 else if d == 13 then 13 else 17;
  }

  lemma Cofactor(p: nat, d: nat, e: nat, q: nat)
    requires d * e == p && d >= 2 && e >= 2 && q in {2, 3, 5, 7, 11, 13, 17} && d % q == 0
    ensures SmallFactor(p)
  {
    var m := d / q;
    assert d == q * m;
    assert p == q * (m * e);
    assert m >= 1;
    assert m * e >= 2;
    MultipleOf(q, m * e);
  }

  /** All numbers from lo up to hi are composite. */
  predicate Gap(lo: nat, hi: nat)
    decreases hi - lo
  {
    lo >= hi || (SmallFactor(lo) && Gap(lo + 1, hi))
  }

  lemma {:induction false} InGap(lo: nat, hi: nat, r: nat)
    requires Gap(lo, hi) && lo <= r < hi
    ensures SmallFactor(r)
    decreases hi - lo
  {
    if lo < r { InGap(lo + 1, hi, r); }
  }

  lemma {:induction false} Follows(p: nat, n: nat, q: nat)
    requires 2 <= p < q < 324 && !SmallFactor(p) && !SmallFactor(q) && n == p + 1 && Gap(n, q)
    ensures NextPrime(p, q)
  {
    CompositeIff(p);
    CompositeIff(q);
    forall r | p < r < q ensures !IsPrime(r) {
      InGap(n, q, r);
      CompositeIff(r);
    }
  }

  lemma Primes0()
    ensures forall i :: 0 <= i < 4 ==> NextPrime(PRIMES[i], PRIMES[i + 1])
  {
    Follows(2, 3, 3);
    Follows(3, 4, 5);
    Follows(5, 6, 7);
    Follows(7, 8, 11);
  }

  lemma Primes4()
    ensures forall i :: 4 <= i < 8 ==> NextPrime(PRIMES[i], PRIMES[i + 1])
  {
    Follows(11, 12, 13);
    Follows(13, 14, 17);
    Follows(17, 18, 19);
    Follows(19, 20, 23);
  }

  lemma Primes8()
    ensures forall i :: 8 <= i < 12 ==> NextPrime(PRIMES[i], PRIMES[i + 1])
  {
    Follows(23, 24, 29);
    Follows(29, 30, 31);
    Follows(31, 32, 37);
    Follows(37, 38, 41);
  }

  lemma Primes12()
    ensures forall i :: 12 <= i < 16 ==> NextPrime(PRIMES[i], PRIMES[i + 1])
  {
    Follows(41, 42, 43);
    Follows(43, 44, 47);
    Follows(47, 48, 53);
    Follows(53, 54, 59);
  }

  lemma Primes16()
    ensures forall i :: 16 <= i < 20 ==> NextPrime(PRIMES[i], PRIMES[i + 1])
  {
    Follows(59, 60, 61);
    Follows(61, 62, 67);
    Follows(67, 68, 71);
    Follows(71, 72, 73);
  }

  lemma Primes20()
    ensures forall i :: 20 <= i < 24 ==> NextPrime(PRIMES[i], PRIMES[i + 1])
  {
    Follows(73, 74, 79);
    Follows(79, 80, 83);
    Follows(83, 84, 89);
    Follows(89, 90, 97);
  }

  lemma Primes24()
    ensures forall i :: 24 <= i < 28 ==> NextPrime(PRIMES[i], PRIMES[i + 1])
  {
    Follows(97, 98, 101);
    Follows(101, 102, 103);
    Follows(103, 104, 107);
    Follows(107, 108, 109);
  }

  lemma Primes28()
    ensures forall i :: 28 <= i < 32 ==> NextPrime(PRIMES[i], PRIMES[i + 1])
  {
    Follows(109, 110, 113);
    Follows(113, 114, 127);
    Follows(127, 128, 131);
    Follows(131, 132, 137);
  }

  lemma Primes32()
    ensures forall i :: 32 <= i < 36 ==> NextPrime(PRIMES[i], PRIMES[i + 1])
  {
    Follows(137, 138, 139);
    Follows(139, 140, 149);
    Follows(149, 150, 151);
    Follows(151, 152, 157);
  }

  lemma Primes36()
    ensures forall i :: 36 <= i < 40 ==> NextPrime(PRIMES[i], PRIMES[i + 1])
  {
    Follows(157, 158, 163);
    Follows(163, 164, 167);
    Follows(167, 168, 173);
    Follows(173, 174, 179);
  }

  lemma Primes40()
    ensures forall i :: 40 <= i < 44 ==> NextPrime(PRIMES[i], PRIMES[i + 1])
  {
    Follows(179, 180, 181);
    Follows(181, 182, 191);
    Follows(191, 192, 193);
    Follows(193, 194, 197);
  }

  lemma Primes44()
    ensures forall i :: 44 <= i < 48 ==> NextPrime(PRIMES[i], PRIMES[i + 1])
  {
    Follows(197, 198, 199);
    Follows(199, 200, 211);
    Follows(211, 212, 223);
    Follows(223, 224, 227);
  }

  lemma Primes48()
    ensures forall i :: 48 <= i < 52 ==> NextPrime(PRIMES[i], PRIMES[i + 1])
  {
    Follows(227, 228, 229);
    Follows(229, 230, 233);
    Follows(233, 234, 239);
    Follows(239, 240, 241);
  }

  lemma Primes52()
    ensures forall i :: 52 <= i < 56 ==> NextPrime(PRIMES[i], PRIMES[i + 1])
  {
    Follows(241, 242, 251);
    Follows(251, 252, 257);
    Follows(257, 258, 263);
    Follows(263, 264, 269);
  }

  lemma Primes56()
    ensures forall i :: 56 <= i < 60 ==> NextPrime(PRIMES[i], PRIMES[i + 1])
  {
    Follows(269, 270, 271);
    Follows(271, 272, 277);
    Follows(277, 278, 281);
    Follows(281, 282, 283);
  }

  lemma Primes60()
    ensures forall i :: 60 <= i < 63 ==> NextPrime(PRIMES[i], PRIMES[i + 1])
  {
    Follows(283, 284, 293);
    Follows(293, 294, 307);
    Follows(307, 308, 311);
  }

  /** PRIMES is the list of the first 64 primes: it begins with 2, and each is followed by the next. */
  lemma PrimesInOrder()
    ensures |PRIMES| == 64 && PRIMES[0] == 2
    ensures forall i :: 0 <= i < 63 ==> NextPrime(PRIMES[i], PRIMES[i + 1])
  {
    Primes0();
    Primes4();
    Primes8();
    Primes12();
    Primes16();
    Primes20();
    Primes24();
    Primes28();
    Primes32();
    Primes36();
    Primes40();
    Primes44();
    Primes48();
    Primes52();
    Primes56();
    Primes60();
  }

  // ----- the round constants

  /** k is the first 32 bits of the fractional part of the cube root of p. */
  ghost predicate CubeRootBits(p: nat, k: nat) {
    exists n: nat :: CubeRoot(p, n) && k == n % 0x1_0000_0000
  }

  /** n is the cube root of p times 2^32, rounded down. */
  predicate CubeRoot(p: nat, n: nat) {
    n * n * n <= p * 0x1_0000_0000_0000_0000_0000_0000 < (n + 1) * (n + 1) * (n + 1)
  }

  lemma RoundConstants0()
    ensures forall i :: 0 <= i < 8 ==> CubeRootBits(PRIMES[i], K[i])
  {
    assert CubeRoot(2, 0x1_428a_2f98);
    assert CubeRoot(3, 0x1_7137_4491);
    assert CubeRoot(5, 0x1_b5c0_fbcf);
    assert CubeRoot(7, 0x1_e9b5_dba5);
    assert CubeRoot(11, 0x2_3956_c25b);
    assert CubeRoot(13, 0x2_59f1_11f1);
    assert CubeRoot(17, 0x2_923f_82a4);
    assert CubeRoot(19, 0x2_ab1c_5ed5);
  }

  lemma RoundConstants8()
    ensures forall i :: 8 <= i < 16 ==> CubeRootBits(PRIMES[i], K[i])
  {
    assert CubeRoot(23, 0x2_d807_aa98);
    assert CubeRoot(29, 0x3_1283_5b01);
    assert CubeRoot(31, 0x3_2431_85be);
    assert CubeRoot(37, 0x3_550c_7dc3);
    assert CubeRoot(41, 0x3_72be_5d74);
    assert CubeRoot(43, 0x3_80de_b1fe);
    assert CubeRoot(47, 0x3_9bdc_06a7);
    assert CubeRoot(53, 0x3_c19b_f174);
  }

  lemma RoundConstants16()
    ensures forall i :: 16 <= i < 24 ==> CubeRootBits(PRIMES[i], K[i])
  {
    assert CubeRoot(59, 0x3_e49b_69c1);
    assert CubeRoot(61, 0x3_efbe_4786);
    assert CubeRoot(67, 0x4_0fc1_9dc6);
    assert CubeRoot(71, 0x4_240c_a1cc);
    assert CubeRoot(73, 0x4_2de9_2c6f);
    assert CubeRoot(79, 0x4_4a74_84aa);
    assert CubeRoot(83, 0x4_5cb0_a9dc);
    assert CubeRoot(89, 0x4_76f9_88da);
  }

  lemma RoundConstants24()
    ensures forall i :: 24 <= i < 32 ==> CubeRootBits(PRIMES[i], K[i])
  {
    assert CubeRoot(97, 0x4_983e_5152);
    assert CubeRoot(101, 0x4_a831_c66d);
    assert CubeRoot(103, 0x4_b003_27c8);
    assert CubeRoot(107, 0x4_bf59_7fc7);
    assert CubeRoot(109, 0x4_c6e0_0bf3);
    assert CubeRoot(113, 0x4_d5a7_9147);
    assert CubeRoot(127, 0x5_06ca_6351);
    assert CubeRoot(131, 0x5_1429_2967);
  }

  lemma RoundConstants32()
    ensures forall i :: 32 <= i < 40 ==> CubeRootBits(PRIMES[i], K[i])
  {
    assert CubeRoot(137, 0x5_27b7_0a85);
    assert CubeRoot(139, 0x5_2e1b_2138);
    assert CubeRoot(149, 0x5_4d2c_6dfc);
    assert CubeRoot(151, 0x5_5338_0d13);
    assert CubeRoot(157, 0x5_650a_7354);
    assert CubeRoot(163, 0x5_766a_0abb);
    assert CubeRoot(167, 0x5_81c2_c92e);
    assert CubeRoot(173, 0x5_9272_2c85);
  }

  lemma RoundConstants40()
    ensures forall i :: 40 <= i < 48 ==> CubeRootBits(PRIMES[i], K[i])
  {
    assert CubeRoot(179, 0x5_a2bf_e8a1);
    assert CubeRoot(181, 0x5_a81a_664b);
    assert CubeRoot(191, 0x5_c24b_8b70);
    assert CubeRoot(193, 0x5_c76c_51a3);
    assert CubeRoot(197, 0x5_d192_e819);
    assert CubeRoot(199, 0x5_d699_0624);
    assert CubeRoot(211, 0x5_f40e_3585);
    assert CubeRoot(223, 0x6_106a_a070);
  }

  lemma RoundConstants48()
    ensures forall i :: 48 <= i < 56 ==> CubeRootBits(PRIMES[i], K[i])
  {
    assert CubeRoot(227, 0x6_19a4_c116);
    assert CubeRoot(229, 0x6_1e37_6c08);
    assert CubeRoot(233, 0x6_2748_774c);
    assert CubeRoot(239, 0x6_34b0_bcb5);
    assert CubeRoot(241, 0x6_391c_0cb3);
    assert CubeRoot(251, 0x6_4ed8_aa4a);
    assert CubeRoot(257, 0x6_5b9c_ca4f);
    assert CubeRoot(263, 0x6_682e_6ff3);
  }

  lemma RoundConstants56()
    ensures forall i :: 56 <= i < 64 ==> CubeRootBits(PRIMES[i], K[i])
  {
    assert CubeRoot(269, 0x6_748f_82ee);
    assert CubeRoot(271, 0x6_78a5_636f);
    assert CubeRoot(277, 0x6_84c8_7814);
    assert CubeRoot(281, 0x6_8cc7_0208);
    assert CubeRoot(283, 0x6_90be_fffa);
    assert CubeRoot(293, 0x6_a450_6ceb);
    assert CubeRoot(307, 0x6_bef9_a3f7);
    assert CubeRoot(311, 0x6_c671_78f2);
  }

  /** Section 4.2.2: the fractional parts of the cube roots of the first 64 primes. */
  lemma RoundConstants()
    ensures |PROGRAM.k| == 64 && forall i :: 0 <= i < 64 ==> CubeRootBits(PRIMES[i], PROGRAM.k[i])
  {
    RoundConstants0();
    RoundConstants8();
    RoundConstants16();
    RoundConstants24();
    RoundConstants32();
    RoundConstants40();
    RoundConstants48();
    RoundConstants56();
  }

  // ----- the initial hash value

  /** h is the first 32 bits of the fractional part of the square root of p. */
  ghost predicate SquareRootBits(p: nat, h: nat) {
    exists n: nat :: SquareRoot(p, n) && h == n % 0x1_0000_0000
  }

  predicate SquareRoot(p: nat, n: nat) {
    n * n <= p * 0x1_0000_0000_0000_0000 < (n + 1) * (n + 1)
  }

  /** Section 5.3.3: the fractional parts of the square roots of the first eight primes. */
  lemma InitialWords()
    ensures |Words(H0)| == 8 && forall i :: 0 <= i < 8 ==> SquareRootBits(PRIMES[i], Words(H0)[i])
  {
    assert SquareRoot(2, 0x1_6a09_e667);
    assert SquareRoot(3, 0x1_bb67_ae85);
    assert SquareRoot(5, 0x2_3c6e_f372);
    assert SquareRoot(7, 0x2_a54f_f53a);
    assert SquareRoot(11, 0x3_510e_527f);
    assert SquareRoot(13, 0x3_9b05_688c);
    assert SquareRoot(17, 0x4_1f83_d9ab);
    assert SquareRoot(19, 0x4_5be0_cd19);
  }
}
