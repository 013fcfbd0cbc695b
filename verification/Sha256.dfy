/** SHA-256: padding, message schedule and compression of FIPS 180-4, and the in-place loops that compute them. */
module Sha256 {
  import opened Optional
  import opened Bits
  import opened WordBits
  import opened Bytes
  import opened Text

  /** Addition that wraps at 32 bits. */
  function Plus(a: word, b: word): word {
    (a + b) % WORDS
  }

  // ----- the logical functions and constants of a hash of this family

  /** Six functions on words and the round constants. The loops do not depend on what they are. */
  datatype Logic = Logic(
    ch: (word, word, word) -> word, maj: (word, word, word) -> word,
    bigSigma0: word -> word, bigSigma1: word -> word,
    smallSigma0: word -> word, smallSigma1: word -> word,
    k: seq<word>)

  const K: seq<word> :=
    [0x428a2f98, 0x71374491, 0xb5c0fbcf, 0xe9b5dba5, 0x3956c25b, 0x59f111f1, 0x923f82a4, 0xab1c5ed5]
    + [0xd807aa98, 0x12835b01, 0x243185be, 0x550c7dc3, 0x72be5d74, 0x80deb1fe, 0x9bdc06a7, 0xc19bf174]
    + [0xe49b69c1, 0xefbe4786, 0x0fc19dc6, 0x240ca1cc, 0x2de92c6f, 0x4a7484aa, 0x5cb0a9dc, 0x76f988da]
    + [0x983e5152, 0xa831c66d, 0xb00327c8, 0xbf597fc7, 0xc6e00bf3, 0xd5a79147, 0x06ca6351, 0x14292967]
    + [0x27b70a85, 0x2e1b2138, 0x4d2c6dfc, 0x53380d13, 0x650a7354, 0x766a0abb, 0x81c2c92e, 0x92722c85]
    + [0xa2bfe8a1, 0xa81a664b, 0xc24b8b70, 0xc76c51a3, 0xd192e819, 0xd6990624, 0xf40e3585, 0x106aa070]
    + [0x19a4c116, 0x1e376c08, 0x2748774c, 0x34b0bcb5, 0x391c0cb3, 0x4ed8aa4a, 0x5b9cca4f, 0x682e6ff3]
    + [0x748f82ee, 0x78a5636f, 0x84c87814, 0x8cc70208, 0x90befffa, 0xa4506ceb, 0xbef9a3f7, 0xc67178f2]

  function Xor32(a: word, b: word): word {
    WordIsPow2();
    XorBound(a, b, 32);
    Xor(a, b)
  }

  function Xor3(a: word, b: word, c: word): word {
    Xor32(Xor32(a, b), c)
  }

  function Ch(x: word, y: word, z: word): word {
    Xor32(And(x, y), And(Not(x), z))
  }

  function Maj(x: word, y: word, z: word): word {
    Xor3(And(x, y), And(x, z), And(y, z))
  }

  /** Rotation as section 3.2 of FIPS 180-4 has it: two shifts and a disjunction. */
  function Rotr(x: word, n: nat): word
    requires 0 < n < 32
  {
    WordIsPow2();
    OrBound(ShiftRight(x, n), ShiftLeft(x, 32 - n), 32);
    Or(ShiftRight(x, n), ShiftLeft(x, 32 - n))
  }

  /** Sections 4.1.2 and 4.2.2 of FIPS 180-4. */
  const FIPS: Logic := Logic(
    Ch, Maj,
    x => Xor3(Rotr(x, 2), Rotr(x, 13), Rotr(x, 22)), x => Xor3(Rotr(x, 6), Rotr(x, 11), Rotr(x, 25)),
    x => Xor3(Rotr(x, 7), Rotr(x, 18), ShiftRight(x, 3)), x => Xor3(Rotr(x, 17), Rotr(x, 19), ShiftRight(x, 10)),
    K)

  // The program writes the sigma functions with the machine's own rotation.

  function TurnBig0(x: word): word { Xor3(RotateRight(x, 2), RotateRight(x, 13), RotateRight(x, 22)) }
  function TurnBig1(x: word): word { Xor3(RotateRight(x, 6), RotateRight(x, 11), RotateRight(x, 25)) }
  function TurnSmall0(x: word): word { Xor3(RotateRight(x, 7), RotateRight(x, 18), ShiftRight(x, 3)) }
  function TurnSmall1(x: word): word { Xor3(RotateRight(x, 17), RotateRight(x, 19), ShiftRight(x, 10)) }

  const PROGRAM: Logic := Logic(Ch, Maj, TurnBig0, TurnBig1, TurnSmall0, TurnSmall1, K)

  /** Machine rotation is the rotation of section 3.2 of FIPS 180-4, for every amount. */
  lemma TurnIsRotr(x: word, n: nat)
    requires 0 < n < 32
    ensures RotateRight(x, n) == Rotr(x, n)
  {
    var k := 32;
    WordIsPow2();
    forall i | 0 <= i < k ensures Bit(RotateRight(x, n), i) == Bit(Rotr(x, n), i) {
      BitRotated(x, n, i);
      BitRotr(x, n, i);
    }
    BitsDetermine(RotateRight(x, n), Rotr(x, n), k);
  }

  lemma {:induction false} BitRotr(x: word, n: nat, i: nat)
    requires 0 < n < 32 && i < 32
    ensures Bit(Rotr(x, n), i) == Bit(x, if i + n < 32 then i + n else i + n - 32)
  {
    BitOr(ShiftRight(x, n), ShiftLeft(x, 32 - n), i);
    BitShifted(x, n, i);
    BitShiftedLeft(x, 32 - n, i);
    WordIsPow2();
    if i + n >= 32 { BitAbove(x, 32, i + n); }
  }

  /** Equal round constants, and equal values at every word. */
  ghost predicate SameLogic(l: Logic, m: Logic) {
    && |l.k| == 64 && l.k == m.k && l.ch == m.ch && l.maj == m.maj
    && forall x ::
      && l.bigSigma0(x) == m.bigSigma0(x) && l.bigSigma1(x) == m.bigSigma1(x)
      && l.smallSigma0(x) == m.smallSigma0(x) && l.smallSigma1(x) == m.smallSigma1(x)
  }

  lemma ProgramIsStandard()
    ensures SameLogic(PROGRAM, FIPS)
  {
    forall x: word ensures
      && PROGRAM.bigSigma0(x) == FIPS.bigSigma0(x) && PROGRAM.bigSigma1(x) == FIPS.bigSigma1(x)
      && PROGRAM.smallSigma0(x) == FIPS.smallSigma0(x) && PROGRAM.smallSigma1(x) == FIPS.smallSigma1(x)
    {
      TurnedSigmas(x);
    }
  }

  lemma TurnedSigmas(x: word)
    ensures TurnBig0(x) == FIPS.bigSigma0(x) && TurnBig1(x) == FIPS.bigSigma1(x)
    ensures TurnSmall0(x) == FIPS.smallSigma0(x) && TurnSmall1(x) == FIPS.smallSigma1(x)
  {
    TurnIsRotr(x, 2);
    TurnIsRotr(x, 13);
    TurnIsRotr(x, 22);
    TurnIsRotr(x, 6);
    TurnIsRotr(x, 11);
    TurnIsRotr(x, 25);
    TurnIsRotr(x, 7);
    TurnIsRotr(x, 18);
    TurnIsRotr(x, 17);
    TurnIsRotr(x, 19);
  }

  // ----- big-endian numbers

  /** n in k bytes, most significant first; higher digits are lost. */
  function BigEndian(n: nat, k: nat): (r: seq<byte>)
    ensures |r| == k
  {
    if k == 0 then [] else BigEndian(n / 0x100, k - 1) + [n % 0x100]
  }

  function BytesValue(s: seq<byte>): nat {
    if s == [] then 0 else BytesValue(s[..|s| - 1]) * 0x100 + s[|s| - 1]
  }

  function Power256(k: nat): (r: nat)
    ensures r >= 1
  {
    if k == 0 then 1 else 0x100 * Power256(k - 1)
  }

  lemma {:induction false} BytesValueBound(s: seq<byte>)
    ensures BytesValue(s) < Power256(|s|)
  {
    if s != [] { BytesValueBound(s[..|s| - 1]); }
  }

  lemma {:induction false} BigEndianValue(n: nat, k: nat)
    ensures BytesValue(BigEndian(n, k)) == n % Power256(k)
  {
    if k > 0 {
      BigEndianValue(n / 0x100, k - 1);
      var r := BigEndian(n, k);
      assert r[..k - 1] == BigEndian(n / 0x100, k - 1);
      OneMoreDigit(n, Power256(k - 1));
    }
  }

  lemma OneMoreDigit(n: nat, p: nat)
    requires p >= 1
    ensures n % (0x100 * p) == n / 0x100 % p * 0x100 + n % 0x100
  {
    var m := n / 0x100;
    var q, r := m / p, m % p;
    assert m == q * p + r;
    assert q * (0x100 * p) == 0x100 * (q * p);
    RemainderUnique(0x100 * p, q, 0x100 * r + n % 0x100, n);
  }

  // ----- one block (section 6.2.2): 64 bytes make 16 words, and the schedule has a word for each byte

  /** Four bytes as a word, most significant first. */
  function WordAt(block: seq<byte>, i: nat): word
    requires 4 * i + 3 < |block|
  {
    BytesValueBound(block[4 * i..4 * i + 4]);
    BytesValue(block[4 * i..4 * i + 4])
  }

  /** The first t words of the message schedule. */
  function Schedule(l: Logic, block: seq<byte>, t: nat): (w: seq<word>)
    requires |block| == 64 && t <= 64
    ensures |w| == t
  {
    if t == 0 then []
    else
      var w := Schedule(l, block, t - 1);
      if t <= 16 then w + [WordAt(block, t - 1)]
      else w + [Plus(Plus(Plus(l.smallSigma1(w[t - 3]), w[t - 8]), l.smallSigma0(w[t - 16])), w[t - 17])]
  }

  /** The eight words of a hash value, or the eight working variables. */
  datatype State = State(a: word, b: word, c: word, d: word, e: word, f: word, g: word, h: word)

  function Round(l: Logic, s: State, k: word, w: word): State {
    var t1 := Plus(Plus(Plus(Plus(s.h, l.bigSigma1(s.e)), l.ch(s.e, s.f, s.g)), k), w);
    var t2 := Plus(l.bigSigma0(s.a), l.maj(s.a, s.b, s.c));
    State(Plus(t1, t2), s.a, s.b, s.c, Plus(s.d, t1), s.e, s.f, s.g)
  }

  /** The first t rounds, with schedule w. */
  function Rounds(l: Logic, s: State, w: seq<word>, t: nat): State
    requires t <= |w| <= |l.k|
  {
    if t == 0 then s else Round(l, Rounds(l, s, w, t - 1), l.k[t - 1], w[t - 1])
  }

  function Add(s: State, t: State): State {
    State(Plus(s.a, t.a), Plus(s.b, t.b), Plus(s.c, t.c), Plus(s.d, t.d),
          Plus(s.e, t.e), Plus(s.f, t.f), Plus(s.g, t.g), Plus(s.h, t.h))
  }

  function Compress(l: Logic, h: State, block: seq<byte>): State
    requires |block| == 64 && |l.k| == 64
  {
    var w := Schedule(l, block, |block|);
    Add(h, Rounds(l, h, w, |w|))
  }

  // ----- padding (section 5.1.1)

  function Zeros(n: nat): (r: seq<byte>)
    ensures |r| == n && forall i :: 0 <= i < n ==> r[i] == 0
  {
    if n == 0 then [] else Zeros(n - 1) + [0]
  }

  /** Message, one bit, k zero bytes (and seven zero bits), and the bit length in 64 bits. */
  function PaddedWith(msg: seq<byte>, k: nat): seq<byte> {
    msg + [0x80] + Zeros(k) + BigEndian(8 * |msg|, 8)
  }

  /** Whole 64-byte blocks for n bytes, the one bit and the length. */
  function Blocks(n: nat): nat {
    (n + 9 + 63) / 64
  }

  function PaddedLen(n: nat): (r: nat)
    ensures r >= n + 9
  {
    64 * Blocks(n)
  }

  function Pad(msg: seq<byte>): (r: seq<byte>)
    ensures |r| == 64 * Blocks(|msg|)
  {
    PaddedWith(msg, PaddedLen(|msg|) - |msg| - 9)
  }

  /** The padding is the shortest that fills whole 64-byte blocks. */
  lemma PadMinimal(msg: seq<byte>, k: nat, blocks: nat)
    requires |PaddedWith(msg, k)| == 64 * blocks
    ensures |Pad(msg)| <= |PaddedWith(msg, k)|
  {
    assert |PaddedWith(msg, k)| == |msg| + 9 + k;
    BlocksLeast(|msg|, blocks);
  }

  lemma BlocksLeast(n: nat, blocks: nat)
    requires n + 9 <= 64 * blocks
    ensures Blocks(n) <= blocks
  {
  }

  /** A message is recovered from its padding, so no two share one, whatever their lengths. */
  lemma PadInjective(m: seq<byte>, n: seq<byte>)
    requires Pad(m) == Pad(n)
    ensures m == n
  {
    var p := Pad(m);
    assert Blocks(|m|) == Blocks(|n|);
    assert p[|p| - 8..] == BigEndian(8 * |m|, 8);
    assert Pad(n)[|p| - 8..] == BigEndian(8 * |n|, 8);
    LengthsDiffer(|m|, |n|);
    LengthsDiffer(|n|, |m|);
    assert p[..|m|] == m && Pad(n)[..|n|] == n;
  }

  /** Lengths less than a block apart differ in the length field, although it wraps. */
  lemma {:induction false} LengthsDiffer(a: nat, b: nat)
    requires Blocks(a) == Blocks(b)
    ensures a < b ==> BigEndian(8 * a, 8) != BigEndian(8 * b, 8)
  {
    BigEndianValue(8 * a, 8);
    BigEndianValue(8 * b, 8);
    assert Power256(8) == 0x1_0000_0000_0000_0000;
    if a < b { RemaindersDiffer(Power256(8), 8 * a, 8 * b); }
  }

  // ----- the digest

  const H0: State := State(0x6a09e667, 0xbb67ae85, 0x3c6ef372, 0xa54ff53a,
                           0x510e527f, 0x9b05688c, 0x1f83d9ab, 0x5be0cd19)

  /** The n-th 64-byte chunk. */
  function ChunkAt(p: seq<byte>, n: nat): (r: seq<byte>)
    requires 64 * (n + 1) <= |p|
    ensures |r| == 64
  {
    p[64 * n..64 * (n + 1)]
  }

  /** The hash value after the first n blocks. */
  function Fold(l: Logic, p: seq<byte>, n: nat): State
    requires 64 * n <= |p| && |l.k| == 64
  {
    if n == 0 then H0 else Compress(l, Fold(l, p, n - 1), ChunkAt(p, n - 1))
  }

  function Words(s: State): seq<word> {
    [s.a, s.b, s.c, s.d, s.e, s.f, s.g, s.h]
  }

  function Out(ws: seq<word>): (r: seq<byte>)
    ensures |r| == 4 * |ws|
  {
    if ws == [] then [] else Out(ws[..|ws| - 1]) + BigEndian(ws[|ws| - 1], 4)
  }

  lemma {:induction false} ScheduleSame(l: Logic, m: Logic, block: seq<byte>, t: nat)
    requires SameLogic(l, m) && |block| == 64 && t <= 64
    ensures Schedule(l, block, t) == Schedule(m, block, t)
  {
    if t > 0 { ScheduleSame(l, m, block, t - 1); }
  }

  lemma RoundSame(l: Logic, m: Logic, s: State, k: word, w: word)
    requires SameLogic(l, m)
    ensures Round(l, s, k, w) == Round(m, s, k, w)
  {
  }

  lemma {:induction false} RoundsSame(l: Logic, m: Logic, s: State, w: seq<word>, t: nat)
    requires SameLogic(l, m) && t <= |w| <= |l.k|
    ensures Rounds(l, s, w, t) == Rounds(m, s, w, t)
  {
    if t > 0 {
      RoundsSame(l, m, s, w, t - 1);
      RoundSame(l, m, Rounds(l, s, w, t - 1), l.k[t - 1], w[t - 1]);
    }
  }

  lemma CompressSame(l: Logic, m: Logic, h: State, block: seq<byte>)
    requires SameLogic(l, m) && |block| == 64
    ensures Compress(l, h, block) == Compress(m, h, block)
  {
    ScheduleSame(l, m, block, |block|);
    RoundsSame(l, m, h, Schedule(l, block, |block|), |block|);
  }

  lemma FoldStep(l: Logic, m: Logic, p: seq<byte>, n: nat)
    requires SameLogic(l, m) && 64 * (n + 1) <= |p| && Fold(l, p, n) == Fold(m, p, n)
    ensures Fold(l, p, n + 1) == Fold(m, p, n + 1)
  {
    FoldNext(l, p, n);
    FoldNext(m, p, n);
    CompressSame(l, m, Fold(l, p, n), ChunkAt(p, n));
  }

  lemma {:induction false} FoldSame(l: Logic, m: Logic, p: seq<byte>, n: nat)
    requires SameLogic(l, m) && 64 * n <= |p|
    ensures Fold(l, p, n) == Fold(m, p, n)
  {
    var i := 0;
    while i < n
      invariant i <= n && Fold(l, p, i) == Fold(m, p, i)
    {
      FoldStep(l, m, p, i);
      i := i + 1;
    }
  }

  function DigestWith(l: Logic, msg: seq<byte>): seq<byte>
    requires |l.k| == 64
  {
    Out(Words(Fold(l, Pad(msg), Blocks(|msg|))))
  }

  function Digest(msg: seq<byte>): seq<byte> {
    DigestWith(FIPS, msg)
  }

  /** The digest depends on the logical functions only through their values. */
  lemma SameDigest(l: Logic, m: Logic, msg: seq<byte>)
    requires SameLogic(l, m)
    ensures DigestWith(l, msg) == DigestWith(m, msg)
  {
    FoldSame(l, m, Pad(msg), Blocks(|msg|));
  }

  // ----- the loops

  /** Zeroed buffer, message copied in, the one bit, and the bit length, modulo 2^64, over the last eight bytes. */
  method PadMessage(data: seq<byte>) returns (padded: array<byte>)
    ensures fresh(padded) && padded[..] == Pad(data)
  {
    var msgLen := |data|;
    var bitLen := msgLen * 8;
    var paddedLen := PaddedLen(msgLen);
    padded := new byte[paddedLen](_ => 0);
    for i := 0 to msgLen
      invariant forall j :: 0 <= j < i ==> padded[j] == data[j]
      invariant forall j :: i <= j < paddedLen ==> padded[j] == 0
    {
      padded[i] := data[i];
    }
    padded[msgLen] := 0x80;
    var lenBytes := BigEndian(bitLen, 8);
    for i := 0 to 8
      invariant forall j :: 0 <= j < msgLen ==> padded[j] == data[j]
      invariant padded[msgLen] == 0x80
      invariant forall j :: msgLen < j < paddedLen - 8 ==> padded[j] == 0
      invariant forall j :: 0 <= j < i ==> padded[paddedLen - 8 + j] == lenBytes[j]
    {
      padded[paddedLen - 8 + i] := lenBytes[i];
    }
    PaddedAt(data, padded[..], paddedLen - 8, lenBytes);
  }

  /** The padded message, byte by byte. */
  lemma {:induction false} PaddedAt(data: seq<byte>, p: seq<byte>, m: nat, tail: seq<byte>)
    requires |p| == PaddedLen(|data|) && m + 8 == |p| && tail == BigEndian(8 * |data|, 8)
    requires forall j :: 0 <= j < |data| ==> p[j] == data[j]
    requires p[|data|] == 0x80
    requires forall j :: |data| < j < m ==> p[j] == 0
    requires forall j :: 0 <= j < 8 ==> p[m + j] == tail[j]
    ensures p == Pad(data)
  {
    ZerosBetween(p, |data|, m);
    TailOf(p, m, tail);
    Assemble(p, data, m, tail);
  }

  lemma {:induction false} Assemble(p: seq<byte>, data: seq<byte>, m: nat, tail: seq<byte>)
    requires |data| < m <= |p| && p[|data|] == 0x80 && forall j :: 0 <= j < |data| ==> p[j] == data[j]
    requires p[|data| + 1..m] == Zeros(m - |data| - 1) && p[m..] == tail
    ensures p == data + [0x80] + Zeros(m - |data| - 1) + tail
  {
    assert p[..|data|] == data;
    Cut(p, |data|, m);
  }

  lemma ZerosBetween(p: seq<byte>, n: nat, m: nat)
    requires n < m <= |p| && forall j :: n < j < m ==> p[j] == 0
    ensures p[n + 1..m] == Zeros(m - n - 1)
  {
  }

  lemma TailOf(p: seq<byte>, m: nat, tail: seq<byte>)
    requires m + |tail| == |p| && forall j :: 0 <= j < |tail| ==> p[m + j] == tail[j]
    ensures p[m..] == tail
  {
  }

  lemma Cut(p: seq<byte>, n: nat, m: nat)
    requires n < m <= |p|
    ensures p == p[..n] + [p[n]] + p[n + 1..m] + p[m..]
  {
  }

  /** The message schedule of one block, filled in place. */
  method Expand(l: Logic, block: seq<byte>) returns (w: array<word>)
    requires |block| == 64
    ensures fresh(w) && w[..] == Schedule(l, block, |block|)
  {
    w := new word[64](_ => 0);
    for i := 0 to 16
      invariant w[..i] == Schedule(l, block, i)
    {
      ghost var before := w[..i];
      w[i] := WordAt(block, i);
      assert w[..i + 1] == before + [w[i]];
    }
    ExpandRest(l, block, w);
  }

  method ExpandRest(l: Logic, block: seq<byte>, w: array<word>)
    requires |block| == 64 == w.Length && w[..16] == Schedule(l, block, 16)
    modifies w
    ensures w[..] == Schedule(l, block, |block|)
  {
    for i := 16 to 64
      invariant w[..i] == Schedule(l, block, i)
    {
      ghost var before := w[..i];
      ScheduleNext(l, block, before);
      var s0, s1 := l.smallSigma0(w[i - 15]), l.smallSigma1(w[i - 2]);
      w[i] := Plus(Plus(Plus(w[i - 16], s0), w[i - 7]), s1);
      assert w[..i + 1] == before + [w[i]];
    }
    assert w[..] == w[..64];
  }

  /** The order of the four summands does not matter. */
  lemma {:induction false} ScheduleNext(l: Logic, block: seq<byte>, w: seq<word>)
    requires |block| == 64 && 16 <= |w| < 64 && w == Schedule(l, block, |w|)
    ensures var i := |w|;
      Schedule(l, block, i + 1)
      == w + [Plus(Plus(Plus(w[i - 16], l.smallSigma0(w[i - 15])), w[i - 7]), l.smallSigma1(w[i - 2]))]
  {
    var i := |w|;
    SameSum(w[i - 16], l.smallSigma0(w[i - 15]), w[i - 7], l.smallSigma1(w[i - 2]));
  }

  lemma SameSum(a: word, b: word, c: word, d: word)
    ensures Plus(Plus(Plus(a, b), c), d) == Plus(Plus(Plus(d, c), b), a)
  {
    SumOfFour(a, b, c, d);
    SumOfFour(d, c, b, a);
  }

  lemma SumOfFour(a: word, b: word, c: word, d: word)
    ensures Plus(Plus(Plus(a, b), c), d) == (a + b + c + d) % WORDS
  {
    Wrap(a + b, c);
    Wrap(a + b + c, d);
  }

  lemma Wrap(x: nat, y: nat)
    ensures (x % WORDS + y) % WORDS == (x + y) % WORDS
  {
  }

  /** One block: the schedule, 64 rounds on eight working variables, and the sum into the hash value. */
  method CompressBlock(l: Logic, h: array<word>, block: seq<byte>)
    requires h.Length == 8 && |block| == 64 && |l.k| == 64
    modifies h
    ensures StateOf(h) == Compress(l, old(StateOf(h)), block)
  {
    var w := Expand(l, block);
    var s := WorkingVariables(l, StateOf(h), w[..]);
    h[0] := Plus(h[0], s.a);
    h[1] := Plus(h[1], s.b);
    h[2] := Plus(h[2], s.c);
    h[3] := Plus(h[3], s.d);
    h[4] := Plus(h[4], s.e);
    h[5] := Plus(h[5], s.f);
    h[6] := Plus(h[6], s.g);
    h[7] := Plus(h[7], s.h);
  }

  /** The rounds over eight working variables, shifted along in place. */
  method WorkingVariables(l: Logic, start: State, w: seq<word>) returns (s: State)
    requires |w| <= |l.k|
    ensures s == Rounds(l, start, w, |w|)
  {
    var a, b, c, d := start.a, start.b, start.c, start.d;
    var e, f, g, h := start.e, start.f, start.g, start.h;
    for i := 0 to |w|
      invariant State(a, b, c, d, e, f, g, h) == Rounds(l, start, w, i)
    {
      var s1 := l.bigSigma1(e);
      var ch := l.ch(e, f, g);
      var temp1 := Plus(Plus(Plus(Plus(h, s1), ch), l.k[i]), w[i]);
      var s0 := l.bigSigma0(a);
      var maj := l.maj(a, b, c);
      var temp2 := Plus(s0, maj);
      h := g;
      g := f;
      f := e;
      e := Plus(d, temp1);
      d := c;
      c := b;
      b := a;
      a := Plus(temp1, temp2);
    }
    return State(a, b, c, d, e, f, g, h);
  }

  function StateOf(h: array<word>): State
    requires h.Length == 8
    reads h
  {
    State(h[0], h[1], h[2], h[3], h[4], h[5], h[6], h[7])
  }

  lemma FoldNext(l: Logic, p: seq<byte>, n: nat)
    requires 64 * (n + 1) <= |p| && |l.k| == 64
    ensures Fold(l, p, n + 1) == Compress(l, Fold(l, p, n), ChunkAt(p, n))
  {
  }

  method InitialHash() returns (h: array<word>)
    ensures fresh(h) && h.Length == 8 && StateOf(h) == H0
  {
    h := new word[8] [0x6a09e667, 0xbb67ae85, 0x3c6ef372, 0xa54ff53a, 0x510e527f, 0x9b05688c, 0x1f83d9ab, 0x5be0cd19];
  }

  /** The loop over the 64-byte chunks of the padded message. */
  method HashBlocks(l: Logic, p: seq<byte>, blocks: nat) returns (h: array<word>)
    requires |p| == 64 * blocks && |l.k| == 64
    ensures h.Length == 8 && StateOf(h) == Fold(l, p, blocks)
  {
    h := InitialHash();
    for n := 0 to blocks
      invariant fresh(h) && StateOf(h) == Fold(l, p, n)
    {
      CompressBlock(l, h, ChunkAt(p, n));
      FoldNext(l, p, n);
    }
  }

  method HashWith(l: Logic, data: seq<byte>) returns (out: array<byte>)
    requires |l.k| == 64
    ensures fresh(out) && out[..] == DigestWith(l, data)
  {
    var padded := PadMessage(data);
    var h := HashBlocks(l, padded[..], Blocks(|data|));
    out := WordBytes(h);
    assert h[..] == Words(StateOf(h));
  }

  method Hash(data: seq<byte>) returns (out: array<byte>)
    ensures fresh(out) && out[..] == Digest(data)
  {
    ProgramIsStandard();
    SameDigest(PROGRAM, FIPS, data);
    out := HashWith(PROGRAM, data);
  }

  /** Each word in four bytes, most significant first. */
  method WordBytes(h: array<word>) returns (out: array<byte>)
    ensures fresh(out) && out[..] == Out(h[..])
  {
    out := new byte[4 * h.Length](_ => 0);
    for i := 0 to h.Length
      invariant out[..4 * i] == Out(h[..i])
    {
      var bytes := BigEndian(h[i], 4);
      ghost var before := out[..4 * i];
      out[4 * i], out[4 * i + 1], out[4 * i + 2], out[4 * i + 3] := bytes[0], bytes[1], bytes[2], bytes[3];
      assert h[..i + 1][..i] == h[..i];
      assert out[..4 * (i + 1)] == before + bytes;
    }
    assert h[..h.Length] == h[..] && out[..4 * h.Length] == out[..];
  }

  // ----- verification against a textual digest

  function HexOf(bytes: seq<byte>): (r: string)
    ensures |r| == 2 * |bytes|
  {
    if bytes == [] then ""
    else HexOf(bytes[..|bytes| - 1]) + [Digit(bytes[|bytes| - 1] / 16), Digit(bytes[|bytes| - 1] % 16)]
  }

  /** Two digits a byte, the high one first, in small letters. */
  lemma {:induction false} HexDigits(bytes: seq<byte>, i: nat)
    requires i < |bytes|
    ensures HexOf(bytes)[2 * i] == "0123456789abcdef"[bytes[i] / 16]
    ensures HexOf(bytes)[2 * i + 1] == "0123456789abcdef"[bytes[i] % 16]
  {
    var n := |bytes| - 1;
    if i < n {
      HexDigits(bytes[..n], i);
    } else {
      DigitShown(bytes[n] / 16);
      DigitShown(bytes[n] % 16);
    }
  }

  lemma DigitShown(d: nat)
    requires d < 16
    ensures Digit(d) == "0123456789abcdef"[d]
  {
  }

  /** Each word of the hash in four bytes, most significant first. */
  lemma {:induction false} DigestBytes(ws: seq<word>, i: nat)
    requires i < |ws|
    ensures BytesValue(Out(ws)[4 * i..4 * i + 4]) == ws[i]
  {
    var n := |ws| - 1;
    var front := Out(ws[..n]);
    if i < n {
      DigestBytes(ws[..n], i);
      assert Out(ws)[4 * i..4 * i + 4] == front[4 * i..4 * i + 4];
    } else {
      BigEndianValue(ws[n], 4);
      SmallMod(ws[n], WORDS);
      assert Power256(4) == WORDS;
      assert Out(ws)[4 * n..4 * n + 4] == BigEndian(ws[n], 4);
    }
  }

  lemma {:induction false} HexInjective(a: seq<byte>, b: seq<byte>)
    requires HexOf(a) == HexOf(b)
    ensures a == b
  {
    assert |a| == |b|;
    if a != [] {
      var x, y := HexOf(a), HexOf(b);
      var n := |a| - 1;
      assert x[..2 * n] == HexOf(a[..n]) && y[..2 * n] == HexOf(b[..n]);
      HexInjective(a[..n], b[..n]);
      DigitInjective(a[n] / 16, b[n] / 16);
      DigitInjective(a[n] % 16, b[n] % 16);
      assert a == a[..n] + [a[n]] && b == b[..n] + [b[n]];
    }
  }

  lemma DigitInjective(d: nat, e: nat)
    requires d < 16 && e < 16
    ensures Digit(d) == Digit(e) ==> d == e
  {
    assert DigitValue(Digit(d)) == Some(d) && DigitValue(Digit(e)) == Some(e);
  }

  method HexEncode(bytes: seq<byte>) returns (s: string)
    ensures s == HexOf(bytes)
  {
    s := "";
    for i := 0 to |bytes|
      invariant s == HexOf(bytes[..i])
    {
      assert bytes[..i + 1][..i] == bytes[..i];
      s := s + [Digit(bytes[i] / 16), Digit(bytes[i] % 16)];
    }
    assert bytes[..|bytes|] == bytes;
  }

  const PREFIX: string := "sha256:"

  /** Accepts exactly the prefix followed by the lowercase hexadecimal digest. */
  method Verify(data: seq<byte>, expected: string) returns (ok: bool)
    ensures ok <==> expected == "sha256:" + HexOf(Digest(data))
  {
    if !StartsWith(expected, PREFIX) {
      return false;
    }
    var hex := expected[|PREFIX|..];
    assert expected == PREFIX + hex;
    var computed := Hash(data);
    var computedHex := HexEncode(computed[..]);
    assert (PREFIX + HexOf(Digest(data)))[|PREFIX|..] == HexOf(Digest(data));
    return computedHex == hex;
  }

  /** A digest text accepts two messages only when their digests are equal byte for byte. */
  lemma AcceptedTogether(m: seq<byte>, n: seq<byte>)
    requires PREFIX + HexOf(Digest(m)) == PREFIX + HexOf(Digest(n))
    ensures Digest(m) == Digest(n)
  {
    assert (PREFIX + HexOf(Digest(m)))[7..] == HexOf(Digest(m));
    assert (PREFIX + HexOf(Digest(n)))[7..] == HexOf(Digest(n));
    HexInjective(Digest(m), Digest(n));
  }
}
