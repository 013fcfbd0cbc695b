/** Well-formed UTF-8, one char per byte. */
module Utf8 {

  predicate Cont(s: string, i: nat, lo: nat, hi: nat) {
    i < |s| && lo <= s[i] as nat <= hi
  }

  /** Well-formed UTF-8, byte by byte. */
  predicate ValidUtf8(s: string) {
    if s == [] then true
    else
      var b := s[0] as nat;
      if b < 0x80 then ValidUtf8(s[1..])
      else if 0xC2 <= b <= 0xDF then Cont(s, 1, 0x80, 0xBF) && ValidUtf8(s[2..])
      else if 0xE0 <= b <= 0xEF then
        && Cont(s, 1, if b == 0xE0 then 0xA0 else 0x80, if b == 0xED then 0x9F else 0xBF)
        && Cont(s, 2, 0x80, 0xBF) && ValidUtf8(s[3..])
      else if 0xF0 <= b <= 0xF4 then
        && Cont(s, 1, if b == 0xF0 then 0x90 else 0x80, if b == 0xF4 then 0x8F else 0xBF)
        && Cont(s, 2, 0x80, 0xBF) && Cont(s, 3, 0x80, 0xBF) && ValidUtf8(s[4..])
      else false
  }

  predicate Ascii(s: string) {
    forall i :: 0 <= i < |s| ==> s[i] as nat < 0x80
  }

  lemma {:induction false} AsciiIsUtf8(s: string)
    requires Ascii(s)
    ensures ValidUtf8(s)
  {
    if s != [] { AsciiIsUtf8(s[1..]); }
  }

  // ----- what it means: the encodings of scalar values (section 3 of RFC 3629)

  /** A Unicode scalar value. */
  predicate Scalar(c: nat) {
    c < 0xD800 || 0xE000 <= c < 0x11_0000
  }

  /** One to four bytes: six bits in each byte after the first. */
  function Encoded(c: nat): string
    requires Scalar(c)
  {
    if c < 0x80 then [c as char]
    else if c < 0x800 then [(0xC0 + c / 0x40) as char, (0x80 + c % 0x40) as char]
    else if c < 0x1_0000 then
      [(0xE0 + c / 0x1000) as char, (0x80 + c / 0x40 % 0x40) as char, (0x80 + c % 0x40) as char]
    else
      [(0xF0 + c / 0x4_0000) as char, (0x80 + c / 0x1000 % 0x40) as char,
       (0x80 + c / 0x40 % 0x40) as char, (0x80 + c % 0x40) as char]
  }

  predicate Scalars(cs: seq<nat>) {
    forall i :: 0 <= i < |cs| ==> Scalar(cs[i])
  }

  function EncodedAll(cs: seq<nat>): string
    requires Scalars(cs)
  {
    if cs == [] then "" else Encoded(cs[0]) + EncodedAll(cs[1..])
  }

  lemma {:induction false} EncodedOne(c: nat, rest: string)
    requires Scalar(c)
    ensures ValidUtf8(Encoded(c) + rest) == ValidUtf8(rest)
  {
    var s := Encoded(c) + rest;
    EncodedBytes(c);
    assert s[|Encoded(c)|..] == rest;
  }

  predicate ByteIn(c: nat, i: nat, lo: nat, hi: nat)
    requires Scalar(c)
  {
    Cont(Encoded(c), i, lo, hi)
  }

  lemma EncodedBytes(c: nat)
    requires Scalar(c)
    ensures c < 0x80 ==> ByteIn(c, 0, 0, 0x7F) && |Encoded(c)| == 1
    ensures 0x80 <= c < 0x800 ==> ByteIn(c, 0, 0xC2, 0xDF) && ByteIn(c, 1, 0x80, 0xBF) && |Encoded(c)| == 2
    ensures 0x800 <= c < 0x1_0000 ==>
      ByteIn(c, 0, 0xE0, 0xEF) && ByteIn(c, 1, 0x80, 0xBF) && ByteIn(c, 2, 0x80, 0xBF) && |Encoded(c)| == 3
    ensures 0x800 <= c < 0x1000 ==> ByteIn(c, 0, 0xE0, 0xE0) && ByteIn(c, 1, 0xA0, 0xBF)
    ensures 0x1000 <= c < 0x1_0000 ==> ByteIn(c, 0, 0xE1, 0xEF)
    ensures 0xD000 <= c < 0xE000 ==> ByteIn(c, 0, 0xED, 0xED) && ByteIn(c, 1, 0x80, 0x9F)
    ensures 0x1000 <= c < 0xD000 || 0xE000 <= c < 0x1_0000 ==> Encoded(c)[0] as nat != 0xED
    ensures 0x1_0000 <= c ==>
      && ByteIn(c, 0, 0xF0, 0xF4) && ByteIn(c, 1, 0x80, 0xBF) && ByteIn(c, 2, 0x80, 0xBF) && ByteIn(c, 3, 0x80, 0xBF)
      && |Encoded(c)| == 4
    ensures 0x1_0000 <= c < 0x4_0000 ==> ByteIn(c, 0, 0xF0, 0xF0) && ByteIn(c, 1, 0x90, 0xBF)
    ensures 0x4_0000 <= c < 0x10_0000 ==> ByteIn(c, 0, 0xF1, 0xF3)
    ensures 0x10_0000 <= c ==> ByteIn(c, 0, 0xF4, 0xF4) && ByteIn(c, 1, 0x80, 0x8F)
  {
  }

  lemma {:induction false} EncodingsAreValid(cs: seq<nat>)
    requires Scalars(cs)
    ensures ValidUtf8(EncodedAll(cs))
  {
    if cs != [] {
      EncodingsAreValid(cs[1..]);
      EncodedOne(cs[0], EncodedAll(cs[1..]));
    }
  }

  /** The scalar value at the front of well-formed UTF-8. */
  lemma FirstScalar(s: string) returns (c: nat, n: nat)
    requires s != "" && ValidUtf8(s)
    ensures 0 < n <= |s| && Scalar(c) && s[..n] == Encoded(c) && ValidUtf8(s[n..])
  {
    var b := s[0] as nat;
    if b < 0x80 {
      n, c := 1, b;
    } else if b <= 0xDF {
      n := 2;
      c := TwoBytes(b, s[1] as nat);
    } else if b <= 0xEF {
      n := 3;
      c := ThreeBytes(b, s[1] as nat, s[2] as nat);
    } else {
      n := 4;
      c := FourBytes(b, s[1] as nat, s[2] as nat, s[3] as nat);
    }
  }

  lemma TwoBytes(b: nat, d: nat) returns (c: nat)
    requires 0xC2 <= b <= 0xDF && 0x80 <= d <= 0xBF
    ensures 0x80 <= c < 0x800 && 0xC0 + c / 0x40 == b && 0x80 + c % 0x40 == d
  {
    c := (b - 0xC0) * 0x40 + (d - 0x80);
  }

  lemma ThreeBytes(b: nat, d: nat, e: nat) returns (c: nat)
    requires 0xE0 <= b <= 0xEF && 0x80 <= d <= 0xBF && 0x80 <= e <= 0xBF
    requires (b == 0xE0 ==> d >= 0xA0) && (b == 0xED ==> d <= 0x9F)
    ensures 0x800 <= c < 0x1_0000 && Scalar(c)
    ensures 0xE0 + c / 0x1000 == b && 0x80 + c / 0x40 % 0x40 == d && 0x80 + c % 0x40 == e
  {
    var h := (b - 0xE0) * 0x40 + (d - 0x80);
    c := h * 0x40 + (e - 0x80);
    assert c / 0x40 == h && c / 0x1000 == b - 0xE0;
  }

  lemma FourBytes(b: nat, d: nat, e: nat, f: nat) returns (c: nat)
    requires 0xF0 <= b <= 0xF4 && 0x80 <= d <= 0xBF && 0x80 <= e <= 0xBF && 0x80 <= f <= 0xBF
    requires (b == 0xF0 ==> d >= 0x90) && (b == 0xF4 ==> d <= 0x8F)
    ensures 0x1_0000 <= c < 0x11_0000
    ensures 0xF0 + c / 0x4_0000 == b && 0x80 + c / 0x1000 % 0x40 == d
    ensures 0x80 + c / 0x40 % 0x40 == e && 0x80 + c % 0x40 == f
  {
    var h := (b - 0xF0) * 0x40 + (d - 0x80);
    var g := h * 0x40 + (e - 0x80);
    c := g * 0x40 + (f - 0x80);
    assert c / 0x40 == g && c / 0x1000 == h && c / 0x4_0000 == b - 0xF0;
  }

  lemma {:induction false} ValidIsEncoded(s: string) returns (cs: seq<nat>)
    requires ValidUtf8(s)
    ensures Scalars(cs) && EncodedAll(cs) == s
    decreases |s|
  {
    if s == "" {
      cs := [];
    } else {
      var c, n := FirstScalar(s);
      var rest := ValidIsEncoded(s[n..]);
      cs := [c] + rest;
      assert cs[1..] == rest;
      assert s == s[..n] + s[n..];
    }
  }

  /** A text is well-formed exactly when it is the encoding of some scalar values. */
  lemma {:induction false} Utf8Exact(s: string)
    ensures ValidUtf8(s) <==> exists cs :: Scalars(cs) && EncodedAll(cs) == s
  {
    if ValidUtf8(s) { var cs := ValidIsEncoded(s); }
    forall cs | Scalars(cs) && EncodedAll(cs) == s ensures ValidUtf8(s) {
      EncodingsAreValid(cs);
    }
  }
}
