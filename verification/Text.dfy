/** ASCII text: splitting, trimming, and numbers in decimal and hexadecimal. */
module Text {
  import opened Optional
  import opened Bits

  // ----- searching and splitting

  /** The first index of c in s from i on, or |s|. */
  function IndexFrom(s: string, c: char, i: nat): (r: nat)
    requires i <= |s|
    ensures i <= r <= |s|
    ensures forall j :: i <= j < r ==> s[j] != c
    ensures r < |s| ==> s[r] == c
    decreases |s| - i
  {
    if i == |s| || s[i] == c then i else IndexFrom(s, c, i + 1)
  }

  function IndexOf(s: string, c: char): (r: nat)
    ensures r <= |s| && (forall j :: 0 <= j < r ==> s[j] != c) && (r < |s| ==> s[r] == c)
  {
    IndexFrom(s, c, 0)
  }

  /** The index found is determined by what it says. */
  lemma IndexOfUnique(s: string, c: char, r: nat)
    requires r <= |s| && (forall j :: 0 <= j < r ==> s[j] != c) && (r < |s| ==> s[r] == c)
    ensures IndexOf(s, c) == r
  {
  }

  /** `s.split(c)`: always at least one piece. */
  function Split(s: string, c: char): (r: seq<string>)
    ensures |r| >= 1
    decreases |s|
  {
    var i := IndexOf(s, c);
    if i == |s| then [s] else [s[..i]] + Split(s[i + 1..], c)
  }

  lemma {:induction false} SplitFirst(s: string, c: char, i: nat)
    requires i < |s| && s[i] == c && forall j :: 0 <= j < i ==> s[j] != c
    ensures Split(s, c) == [s[..i]] + Split(s[i + 1..], c)
  {
    IndexOfUnique(s, c, i);
  }

  lemma Associate<T>(x: seq<T>, y: seq<T>, z: seq<T>)
    ensures x + (y + z) == x + y + z
  {
  }

  lemma FirstOfJoin(a: string, c: char, b: string, i: nat)
    requires i <= |a| && (forall j :: 0 <= j < i ==> a[j] != c) && (i < |a| ==> a[i] == c)
    ensures var s := a + [c] + b;
      && (forall j :: 0 <= j < i ==> s[j] != c) && s[i] == c && s[..i] == a[..i]
      && s[i + 1..] == if i == |a| then b else a[i + 1..] + [c] + b
  {
    var s := a + [c] + b;
    assert s == a + ([c] + b);
    if i < |a| {
      assert s[i + 1..] == a[i + 1..] + ([c] + b);
    }
  }

  /** Splitting two texts joined by the separator splits each. */
  lemma {:induction false} SplitJoin(a: string, c: char, b: string)
    ensures Split(a + [c] + b, c) == Split(a, c) + Split(b, c)
    decreases |a|
  {
    var i := IndexOf(a, c);
    FirstOfJoin(a, c, b, i);
    SplitFirst(a + [c] + b, c, i);
    if i == |a| {
      assert a[..i] == a;
    } else {
      SplitJoin(a[i + 1..], c, b);
      Associate([a[..i]], Split(a[i + 1..], c), Split(b, c));
    }
  }

  /** `s.split_once(c)`. */
  function SplitOnce(s: string, c: char): Option<(string, string)> {
    var i := IndexOf(s, c);
    if i == |s| then None else Some((s[..i], s[i + 1..]))
  }

  predicate Without(s: string, c: char) {
    forall i :: 0 <= i < |s| ==> s[i] != c
  }

  lemma SplitOnceReads(a: string, c: char, b: string)
    requires Without(a, c)
    ensures SplitOnce(a + [c] + b, c) == Some((a, b))
  {
    var s := a + [c] + b;
    IndexOfUnique(s, c, |a|);
    assert s[..|a|] == a && s[|a| + 1..] == b;
  }

  predicate StartsWith(s: string, prefix: string) {
    |prefix| <= |s| && s[..|prefix|] == prefix
  }

  lemma StartsWithIff(s: string, prefix: string)
    ensures StartsWith(s, prefix) <==> exists rest :: s == prefix + rest
  {
    if StartsWith(s, prefix) { assert s == prefix + s[|prefix|..]; }
  }

  lemma NotPrefix(s: string, pat: string, j: nat)
    requires j < |pat| && (j < |s| ==> s[j] != pat[j])
    ensures !StartsWith(s, pat)
  {
    assert |pat| <= |s| ==> s[..|pat|][j] == s[j];
  }

  // ----- trimming

  predicate IsSpace(c: char) {
    c == ' ' || c == '\t' || c == '\n' || c == '\r' || c == 11 as char || c == 12 as char
  }

  function TrimStart(s: string): (r: string)
    ensures |r| <= |s| && (r == [] || !IsSpace(r[0]))
  {
    if s != [] && IsSpace(s[0]) then TrimStart(s[1..]) else s
  }

  function TrimEnd(s: string): (r: string)
    ensures r == [] || !IsSpace(r[|r| - 1])
    ensures r <= s
  {
    if s != [] && IsSpace(s[|s| - 1]) then TrimEnd(s[..|s| - 1]) else s
  }

  function Trim(s: string): string {
    TrimEnd(TrimStart(s))
  }

  /** Neither end is white space. */
  predicate Trimmed(s: string) {
    s == [] || (!IsSpace(s[0]) && !IsSpace(s[|s| - 1]))
  }

  lemma {:induction false} TrimStartPadded(pad: string, s: string)
    requires forall i :: 0 <= i < |pad| ==> IsSpace(pad[i])
    requires Trimmed(s)
    ensures TrimStart(pad + s) == s
    decreases |pad|
  {
    if pad == [] {
      assert pad + s == s;
    } else {
      assert (pad + s)[1..] == pad[1..] + s;
      TrimStartPadded(pad[1..], s);
    }
  }

  /** Leading white space goes, a trimmed text stays. */
  lemma TrimPadded(pad: string, s: string)
    requires forall i :: 0 <= i < |pad| ==> IsSpace(pad[i])
    requires Trimmed(s)
    ensures Trim(pad + s) == s && Trim(s) == s
  {
    TrimStartPadded(pad, s);
    TrimStartPadded([], s);
    assert [] + s == s;
  }

  // What trimming means: white space by its codes, cut off at both ends and nowhere else.

  predicate White(c: char) {
    c as nat in {9, 10, 11, 12, 13, 32}
  }

  predicate AllWhite(s: string) {
    forall i :: 0 <= i < |s| ==> White(s[i])
  }

  predicate BlackEdges(s: string) {
    s == "" || (!White(s[0]) && !White(s[|s| - 1]))
  }

  lemma SpaceIsWhite(c: char)
    ensures IsSpace(c) <==> White(c)
  {
  }

  lemma {:induction false} TrimStartWhite(a: string, s: string)
    requires AllWhite(a) && (s == "" || !White(s[0]))
    ensures TrimStart(a + s) == s
    decreases |a|
  {
    if a == "" {
      assert a + s == s;
      if s != "" { SpaceIsWhite(s[0]); }
    } else {
      SpaceIsWhite(a[0]);
      assert (a + s)[1..] == a[1..] + s;
      TrimStartWhite(a[1..], s);
    }
  }

  lemma {:induction false} TrimEndWhite(s: string, b: string)
    requires AllWhite(b) && (s == "" || !White(s[|s| - 1]))
    ensures TrimEnd(s + b) == s
    decreases |b|
  {
    var t := s + b;
    if b == "" {
      assert t == s;
      if s != "" { SpaceIsWhite(s[|s| - 1]); }
    } else {
      assert t[|t| - 1] == b[|b| - 1];
      SpaceIsWhite(b[|b| - 1]);
      assert t[..|t| - 1] == s + b[..|b| - 1];
      TrimEndWhite(s, b[..|b| - 1]);
    }
  }

  lemma TrimBoth(a: string, r: string, b: string)
    requires AllWhite(a) && AllWhite(b) && BlackEdges(r)
    ensures Trim(a + r + b) == r
  {
    if r == "" {
      assert AllWhite(a + b) && a + b + "" == a + r + b;
      TrimStartWhite(a + b, "");
    } else {
      assert a + (r + b) == a + r + b;
      TrimStartWhite(a, r + b);
      TrimEndWhite(r, b);
    }
  }

  lemma {:induction false} TrimStartCuts(s: string) returns (a: string)
    ensures AllWhite(a) && s == a + TrimStart(s)
    decreases |s|
  {
    if s != "" && IsSpace(s[0]) {
      SpaceIsWhite(s[0]);
      a := TrimStartCuts(s[1..]);
      a := [s[0]] + a;
    } else {
      a := "";
    }
  }

  lemma {:induction false} TrimEndCuts(s: string) returns (b: string)
    ensures AllWhite(b) && s == TrimEnd(s) + b
    decreases |s|
  {
    if s != "" && IsSpace(s[|s| - 1]) {
      SpaceIsWhite(s[|s| - 1]);
      b := TrimEndCuts(s[..|s| - 1]);
      assert s == s[..|s| - 1] + [s[|s| - 1]];
      b := b + [s[|s| - 1]];
    } else {
      b := "";
    }
  }

  /** Trimming gives r exactly when the text is r between white space, and r neither begins nor ends with any. */
  lemma TrimExact(s: string, r: string)
    ensures Trim(s) == r <==> BlackEdges(r) && exists a, b :: AllWhite(a) && AllWhite(b) && s == a + r + b
  {
    if Trim(s) == r {
      var a := TrimStartCuts(s);
      var b := TrimEndCuts(TrimStart(s));
      assert s == a + r + b;
      if r != "" {
        assert r[0] == TrimStart(s)[0];
        SpaceIsWhite(r[0]);
        SpaceIsWhite(r[|r| - 1]);
      }
    }
    forall a, b | AllWhite(a) && AllWhite(b) && BlackEdges(r) && s == a + r + b ensures Trim(s) == r {
      TrimBoth(a, r, b);
    }
  }

  // ----- letters

  function LowerChar(c: char): char {
    if 'A' <= c <= 'Z' then (c as nat + 32) as char else c
  }

  function Lower(s: string): (r: string)
    ensures |r| == |s|
  {
    seq(|s|, i requires 0 <= i < |s| => LowerChar(s[i]))
  }

  /** The same word, each letter small or capital; `word` is written in small letters. */
  predicate Spells(s: string, word: string) {
    && |s| == |word|
    && forall i :: 0 <= i < |s| ==> s[i] == word[i] || ('a' <= word[i] <= 'z' && s[i] as nat + 32 == word[i] as nat)
  }

  lemma LowerSpells(s: string, word: string)
    requires forall i :: 0 <= i < |word| ==> !('A' <= word[i] <= 'Z')
    ensures Lower(s) == Lower(word) <==> Spells(s, word)
  {
    forall i | 0 <= i < |s| && i < |word|
      ensures Lower(s)[i] == Lower(word)[i] <==>
        s[i] == word[i] || ('a' <= word[i] <= 'z' && s[i] as nat + 32 == word[i] as nat)
    {
    }
    if Spells(s, word) { assert Lower(s) == Lower(word); }
  }

  // ----- numbers

  function DigitValue(c: char): Option<nat> {
    if '0' <= c <= '9' then Some(c as nat - '0' as nat)
    else if 'a' <= c <= 'f' then Some(c as nat - 'a' as nat + 10)
    else if 'A' <= c <= 'F' then Some(c as nat - 'A' as nat + 10)
    else None
  }

  /** The value of a digit string in the given radix, most significant digit first. */
  function DigitsValue(s: string, radix: nat): Option<nat> {
    if s == [] then Some(0)
    else match (DigitsValue(s[..|s| - 1], radix), DigitValue(s[|s| - 1]))
      case (Some(n), Some(d)) => if d < radix then Some(n * radix + d) else None
      case _ => None
  }

  // What numerals mean: digits by their places, the last one the units.

  predicate IsDigit(c: char, d: nat) {
    d < 16 && (c == "0123456789abcdef"[d] || c == "0123456789ABCDEF"[d])
  }

  predicate Denotes(s: string, radix: nat, n: nat)
    requires radix >= 2
  {
    if s == "" then n == 0
    else IsDigit(s[|s| - 1], n % radix) && Denotes(s[..|s| - 1], radix, n / radix)
  }

  lemma DigitIff(c: char, d: nat)
    ensures DigitValue(c) == Some(d) <==> IsDigit(c, d)
  {
  }

  lemma DigitStep(m: nat, d: nat, radix: nat)
    requires d < radix
    ensures (m * radix + d) % radix == d && (m * radix + d) / radix == m
  {
    RemainderUnique(radix, m, d, m * radix + d);
    var x := m * radix + d;
    assert x == x / radix * radix + x % radix;
    QuotientUnique(radix, m, d, x / radix, x);
  }

  lemma {:induction false} DenotesIff(s: string, radix: nat, n: nat)
    requires 2 <= radix <= 16
    ensures DigitsValue(s, radix) == Some(n) <==> Denotes(s, radix, n)
  {
    if s != "" {
      var front, c := s[..|s| - 1], s[|s| - 1];
      DigitIff(c, n % radix);
      DenotesIff(front, radix, n / radix);
      DivMod(n, radix);
      var v := DigitsValue(front, radix);
      var w := DigitValue(c);
      if v.Some? && w.Some? && w.value < radix { DigitStep(v.value, w.value, radix); }
    }
  }

  /** Parsing gives n exactly for a numeral of n, behind a plus sign or not, that stays below the limit. */
  lemma {:induction false} ParseExact(s: string, radix: nat, limit: nat, n: nat)
    requires 2 <= radix <= 16
    ensures ParseUnsigned(s, radix, limit) == Some(n)
      <==> (n < limit
        && exists digits :: digits != "" && Denotes(digits, radix, n) && (s == digits || s == "+" + digits))
  {
    var digits := if s != "" && s[0] == '+' then s[1..] else s;
    DenotesIff(digits, radix, n);
    if ParseUnsigned(s, radix, limit) == Some(n) {
      assert s == digits || s == "+" + digits;
    }
    forall t | t != "" && Denotes(t, radix, n) && (s == t || s == "+" + t) ensures t == digits {
      NoSign(t, radix, n);
      assert s == "+" + t ==> s[1..] == t;
    }
  }

  lemma {:induction false} NoSign(s: string, radix: nat, n: nat)
    requires 2 <= radix <= 16 && s != "" && Denotes(s, radix, n)
    ensures s[0] != '+'
  {
    if |s| > 1 {
      NoSign(s[..|s| - 1], radix, n / radix);
      assert s[..|s| - 1][0] == s[0];
    } else {
      DigitIff(s[0], n % radix);
    }
  }

  /** A decimal numeral of n, behind a plus sign or not. */
  predicate Decimal(s: string, n: nat) {
    (s != "" && Denotes(s, 10, n)) || (|s| > 1 && s[0] == '+' && Denotes(s[1..], 10, n))
  }

  lemma DecimalIff(s: string, limit: nat, n: nat)
    ensures ParseUnsigned(s, 10, limit) == Some(n) <==> n < limit && Decimal(s, n)
  {
    DenotesIff(s, 10, n);
    if s != "" && s[0] == '+' { DenotesIff(s[1..], 10, n); }
    if s != "" && Denotes(s, 10, n) { NoSign(s, 10, n); }
  }

  lemma {:induction false} DecimalDigits(s: string, n: nat)
    requires Denotes(s, 10, n)
    ensures forall i :: 0 <= i < |s| ==> '0' <= s[i] <= '9'
  {
    if s != "" {
      DecimalDigits(s[..|s| - 1], n / 10);
      assert forall i :: 0 <= i < |s| - 1 ==> s[i] == s[..|s| - 1][i];
    }
  }

  lemma DecimalChars(s: string, n: nat)
    requires Decimal(s, n)
    ensures s != "" && forall i :: 0 <= i < |s| ==> '0' <= s[i] <= '9' || s[i] == '+'
    ensures '0' <= s[|s| - 1] <= '9'
  {
    if s != "" && Denotes(s, 10, n) {
      DecimalDigits(s, n);
    } else {
      DecimalDigits(s[1..], n);
      assert s == [s[0]] + s[1..];
    }
  }

  lemma {:induction false} NumeralParses(s: string, radix: nat, limit: nat, n: nat)
    requires 2 <= radix <= 16 && s != "" && Denotes(s, radix, n) && n < limit
    ensures ParseUnsigned(s, radix, limit) == Some(n)
  {
    NoSign(s, radix, n);
    DenotesIff(s, radix, n);
  }

  /** Unsigned integer parsing: an optional plus sign, at least one digit, and a value below the limit. */
  function ParseUnsigned(s: string, radix: nat, limit: nat): Option<nat> {
    var digits := if s != [] && s[0] == '+' then s[1..] else s;
    if digits == [] then None
    else match DigitsValue(digits, radix)
      case Some(n) => if n < limit then Some(n) else None
      case None => None
  }

  function Digit(d: nat): char
    requires d < 16
  {
    if d < 10 then ('0' as nat + d) as char else ('a' as nat + d - 10) as char
  }

  lemma DivMod(n: nat, d: nat)
    requires 2 <= d
    ensures n == n / d * d + n % d && n % d < d
    ensures n >= d ==> n / d < n
  {
  }

  /** The shortest numeral of n. */
  function Show(n: nat, radix: nat): (r: string)
    requires 2 <= radix <= 16
    ensures r != []
    decreases n
  {
    DivMod(n, radix);
    if n < radix then [Digit(n)] else Show(n / radix, radix) + [Digit(n % radix)]
  }

  const U16_LIMIT: nat := 0x1_0000
  const USIZE_LIMIT: nat := 0x1_0000_0000_0000_0000

  /** What a numeral is made of. */
  predicate IsNumeral(s: string) {
    s != [] && forall i :: 0 <= i < |s| ==> '0' <= s[i] <= '9' || 'a' <= s[i] <= 'f'
  }

  lemma {:induction false} ShowNumeral(n: nat, radix: nat)
    requires 2 <= radix <= 16
    ensures IsNumeral(Show(n, radix))
    decreases n
  {
    DivMod(n, radix);
    if n >= radix { ShowNumeral(n / radix, radix); }
  }

  predicate IsDecimal(s: string) {
    s != [] && forall i :: 0 <= i < |s| ==> '0' <= s[i] <= '9'
  }

  lemma {:induction false} ShowDecimal(n: nat)
    ensures IsDecimal(Show(n, 10))
    decreases n
  {
    DivMod(n, 10);
    if n >= 10 { ShowDecimal(n / 10); }
  }

  lemma {:induction false} DigitsValueSnoc(s: string, d: nat, n: nat, radix: nat)
    requires d < radix <= 16 && DigitsValue(s, radix) == Some(n)
    ensures DigitsValue(s + [Digit(d)], radix) == Some(n * radix + d)
  {
    var t := s + [Digit(d)];
    assert t[..|t| - 1] == s;
  }

  lemma {:induction false} ShowValue(n: nat, radix: nat)
    requires 2 <= radix <= 16
    ensures DigitsValue(Show(n, radix), radix) == Some(n)
    decreases n
  {
    DivMod(n, radix);
    if n >= radix {
      ShowValue(n / radix, radix);
      DigitsValueSnoc(Show(n / radix, radix), n % radix, n / radix, radix);
    } else {
      DigitsValueSnoc([], n, 0, radix);
      assert [] + [Digit(n)] == [Digit(n)];
    }
  }

  /** Numbers are read back from their numerals, and refused from the limit on. */
  lemma {:induction false} ParseShow(n: nat, radix: nat, limit: nat)
    requires 2 <= radix <= 16
    ensures ParseUnsigned(Show(n, radix), radix, limit) == if n < limit then Some(n) else None
    ensures IsNumeral(Show(n, radix))
  {
    ShowNumeral(n, radix);
    ShowValue(n, radix);
  }

  lemma NumeralTrimmed(s: string)
    requires IsNumeral(s)
    ensures Trimmed(s)
  {
  }
}
