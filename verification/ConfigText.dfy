/** Writing configurations, and what reading them back gives. */
module ConfigText {
  import opened Optional
  import opened Bits
  import opened Text
  import opened Config

  // ----- lines

  function Blanks(n: nat): (r: string)
    ensures |r| == n && forall i :: 0 <= i < n ==> r[i] == ' '
  {
    seq(n, _ => ' ')
  }

  /** `key: value` without its indentation; an empty value leaves the bare key. */
  function KeyText(key: string, v: string): string {
    key + ":" + (if v == "" then "" else " " + v)
  }

  function KeyLine(indent: nat, key: string, v: string): string {
    Blanks(indent) + KeyText(key, v)
  }

  /** A key as the schema has them: printable, and no colon inside. */
  predicate IsKey(key: string) {
    key != "" && !IsSpace(key[0]) && key[0] != '#' && Without(key, ':')
  }

  predicate IsValue(v: string) {
    Trimmed(v) && Without(v, '\n')
  }

  lemma KeyTextTrimmed(key: string, v: string)
    requires IsKey(key) && IsValue(v)
    ensures Trimmed(KeyText(key, v))
  {
    var t := KeyText(key, v);
    assert t[0] == key[0];
    if v == "" {
      assert t[|t| - 1] == ':';
    } else {
      assert t[|t| - 1] == v[|v| - 1];
    }
  }

  /** Indentation, line and value of a written line are read back. */
  lemma KeyLineReads(indent: nat, key: string, v: string)
    requires IsKey(key) && IsValue(v)
    ensures var raw := KeyLine(indent, key, v); var line := KeyText(key, v);
      && LeadingSpaces(raw) == indent && Trim(raw) == line && line != "" && line[0] != '#'
      && HasKey(line, key) && ValueAfterColon(line) == v
  {
    var line := KeyText(key, v);
    var rest := if v == "" then "" else " " + v;
    KeyTextTrimmed(key, v);
    TrimPadded(Blanks(indent), line);
    TrimStartPadded(Blanks(indent), line);
    assert line[0] == key[0];
    assert line == (key + ":") + rest;
    SplitOnceReads(key, ':', rest);
    if v != "" { TrimPadded(" ", v); } else { TrimPadded("", ""); }
  }

  /** A line has one key only. */
  lemma OneKey(key: string, rest: string, other: string)
    requires IsKey(key) && IsKey(other) && HasKey(key + ":" + rest, other)
    ensures other == key
  {
    var line := key + ":" + rest;
    IndexOfUnique(line, ':', |key|);
    assert line[..|other| + 1] == other + ":";
    assert forall j :: 0 <= j < |other| ==> line[j] == (other + ":")[j];
    assert line[|other|] == (other + ":")[|other|];
    IndexOfUnique(line, ':', |other|);
    assert line[..|key|] == key;
  }

  lemma NotKey(key: string, v: string, other: string)
    requires IsKey(key) && IsKey(other) && other != key
    ensures !HasKey(KeyText(key, v), other)
  {
    var rest := if v == "" then "" else " " + v;
    if HasKey(key + ":" + rest, other) { OneKey(key, rest, other); }
  }

  // ----- memory sizes

  datatype Unit = Bytes | KB | MB | GB

  function Factor(u: Unit): nat {
    match u
    case Bytes => 1
    case KB => 1024
    case MB => 1024 * 1024
    case GB => 1024 * 1024 * 1024
  }

  function Suffix(u: Unit): string {
    match u
    case Bytes => ""
    case KB => "kb"
    case MB => "mb"
    case GB => "gb"
  }

  function MemoryText(n: nat, u: Unit): string {
    Show(n, 10) + Suffix(u)
  }

  lemma LowerFixed(s: string)
    requires forall i :: 0 <= i < |s| ==> !('A' <= s[i] <= 'Z')
    ensures Lower(s) == s
  {
  }

  lemma MemoryTextFacts(n: nat, u: Unit)
    ensures IsValue(MemoryText(n, u)) && Lower(MemoryText(n, u)) == MemoryText(n, u)
  {
    ShowNumeral(n, 10);
    LowerFixed(MemoryText(n, u));
  }

  lemma SuffixFound(digits: string, u: Unit)
    requires IsDecimal(digits)
    ensures var s := digits + Suffix(u);
      && (EndsWith(s, "mb") <==> u == MB) && (EndsWith(s, "gb") <==> u == GB) && (EndsWith(s, "kb") <==> u == KB)
      && s[..|digits|] == digits && (u.Bytes? ==> s == digits) && (!u.Bytes? ==> |s| == |digits| + 2)
  {
    var s := digits + Suffix(u);
    if u.Bytes? {
      assert s[|s| - 1] != 'b';
    } else {
      assert s[|s| - 2..] == Suffix(u);
      assert s[|s| - 2] == Suffix(u)[0];
    }
    Ending(s, "mb");
    Ending(s, "gb");
    Ending(s, "kb");
  }

  lemma Ending(s: string, suffix: string)
    requires |suffix| == 2
    ensures EndsWith(s, suffix) ==> |s| >= 2 && s[|s| - 2] == suffix[0] && s[|s| - 1] == suffix[1]
  {
    assert |s| >= 2 ==> s[|s| - 2..][0] == s[|s| - 2] && s[|s| - 2..][1] == s[|s| - 1];
  }

  lemma {:induction false} ScaledReads(n: nat, factor: nat)
    ensures Scaled(Show(n, 10), factor) == if n < USIZE_LIMIT then Some(n * factor % USIZE_LIMIT) else None
  {
    ParseShow(n, 10, USIZE_LIMIT);
    NumeralTrimmed(Show(n, 10));
    TrimPadded("", Show(n, 10));
  }

  lemma FactorBound(n: nat, u: Unit)
    ensures n <= n * Factor(u)
  {
  }

  lemma WrapIff(x: nat)
    ensures x % USIZE_LIMIT == x <==> x < USIZE_LIMIT
  {
    if x < USIZE_LIMIT { SmallMod(x, USIZE_LIMIT); }
  }

  /** A size written as a number and a unit is read back in bytes exactly when the product fits. */
  lemma MemoryReads(n: nat, u: Unit)
    ensures ParseMemory(MemoryText(n, u)) == Some(n * Factor(u)) <==> n * Factor(u) < USIZE_LIMIT
  {
    MemoryParsed(n, u);
    FactorBound(n, u);
    WrapIff(n * Factor(u));
  }

  lemma MemoryParsed(n: nat, u: Unit)
    ensures ParseMemory(MemoryText(n, u)) == if n < USIZE_LIMIT then Some(n * Factor(u) % USIZE_LIMIT) else None
  {
    var digits := Show(n, 10);
    var s := MemoryText(n, u);
    MemoryTextFacts(n, u);
    assert Lower(Trim(s)) == s by { TrimPadded("", s); }
    ShowDecimal(n);
    SuffixFound(digits, u);
    ScaledReads(n, Factor(u));
    ParseShow(n, 10, USIZE_LIMIT);
    if n < USIZE_LIMIT { SmallMod(n, USIZE_LIMIT); }
  }

  // Sizes as they may stand in a file: a numeral, white space, and a unit in letters of either case.

  predicate SizeAs(core: string, v: nat, num: string, pad: string, suffix: string, n: nat) {
    && core == num + pad + suffix && Decimal(num, n) && n < 0x1_0000_0000_0000_0000 && AllWhite(pad)
    && ((suffix == "" && pad == "" && v == n)
        || (Spells(suffix, "kb") && v == n * 1024 % 0x1_0000_0000_0000_0000)
        || (Spells(suffix, "mb") && v == n * 1048576 % 0x1_0000_0000_0000_0000)
        || (Spells(suffix, "gb") && v == n * 1073741824 % 0x1_0000_0000_0000_0000))
  }

  lemma LowerOther(c: char)
    ensures !('A' <= c <= 'Z') ==> LowerChar(c) == c
    ensures 'A' <= c <= 'Z' ==> 'a' <= LowerChar(c) <= 'z'
  {
  }

  /** Small letters change nothing but the unit. */
  lemma LowerParts(num: string, pad: string, suffix: string, n: nat, word: string)
    requires Decimal(num, n) && AllWhite(pad) && Spells(suffix, word)
    requires forall i :: 0 <= i < |word| ==> !('A' <= word[i] <= 'Z')
    ensures Lower(num + pad + suffix) == num + pad + word
  {
    DecimalChars(num, n);
    LowerSpells(suffix, word);
    LowerFixed(word);
    LowerFixed(num + pad);
    assert Lower(num + pad + suffix) == Lower(num + pad) + Lower(suffix);
  }

  lemma ScaledPart(num: string, pad: string, n: nat, factor: nat)
    requires Decimal(num, n) && n < USIZE_LIMIT && AllWhite(pad)
    ensures Scaled(num + pad, factor) == Some(n * factor % USIZE_LIMIT)
  {
    DecimalChars(num, n);
    TrimBoth("", num, pad);
    assert "" + num + pad == num + pad;
    DecimalIff(num, USIZE_LIMIT, n);
  }

  predicate IsUnit(word: string, factor: nat) {
    || (word == "kb" && factor == 1024) || (word == "mb" && factor == 1048576) || (word == "gb" && factor == 1073741824)
  }

  lemma SizeReads(text: string, v: nat, num: string, pad: string, suffix: string, n: nat)
    requires SizeAs(Trim(text), v, num, pad, suffix, n)
    ensures ParseMemory(text) == Some(v)
  {
    if suffix == "" && pad == "" && v == n {
      LowerParts(num, pad, suffix, n, "");
      BareSizeReads(text, num, n);
    } else if Spells(suffix, "kb") && v == n * 1024 % USIZE_LIMIT {
      UnitSizeReads(text, num, pad, suffix, n, "kb", 1024);
    } else if Spells(suffix, "mb") && v == n * 1048576 % USIZE_LIMIT {
      UnitSizeReads(text, num, pad, suffix, n, "mb", 1048576);
    } else {
      UnitSizeReads(text, num, pad, suffix, n, "gb", 1073741824);
    }
  }

  lemma BareSizeReads(text: string, num: string, n: nat)
    requires Lower(Trim(text)) == num && Decimal(num, n) && n < USIZE_LIMIT
    ensures ParseMemory(text) == Some(n)
  {
    DecimalChars(num, n);
    Ending(num, "mb");
    Ending(num, "gb");
    Ending(num, "kb");
    DecimalIff(num, USIZE_LIMIT, n);
  }

  lemma UnitSizeReads(text: string, num: string, pad: string, suffix: string, n: nat, word: string, factor: nat)
    requires Trim(text) == num + pad + suffix && Decimal(num, n) && n < USIZE_LIMIT && AllWhite(pad)
    requires Spells(suffix, word)
    requires IsUnit(word, factor)
    ensures ParseMemory(text) == Some(n * factor % USIZE_LIMIT)
  {
    LowerParts(num, pad, suffix, n, word);
    var s := num + pad + word;
    assert s[|s| - 2..] == word && s[..|s| - 2] == num + pad;
    Ending(s, "mb");
    Ending(s, "gb");
    Ending(s, "kb");
    ScaledPart(num, pad, n, factor);
  }

  lemma LowerKeeps(c: char)
    ensures White(LowerChar(c)) ==> White(c)
    ensures '0' <= LowerChar(c) <= '9' || LowerChar(c) == '+' ==> c == LowerChar(c)
  {
  }

  /** Where a text begins with no white space, trimming cuts at the end only. */
  lemma TrimTail(t: string) returns (b: string)
    requires t != "" && Trim(t) != "" && !White(t[0])
    ensures t == Trim(t) + b && AllWhite(b)
  {
    var r := Trim(t);
    TrimExact(t, r);
    var a;
    a, b :| AllWhite(a) && AllWhite(b) && t == a + r + b;
    Associate(a, r, b);
    NoFront(t, a, r + b);
    assert t == r + b;
  }

  lemma NoFront(t: string, a: string, rest: string)
    requires t != "" && !White(t[0]) && AllWhite(a) && t == a + rest
    ensures a == ""
  {
  }

  /** The parts of a text that is read as a number of units. */
  lemma UnitSizeSeen(core: string, word: string, n: nat) returns (num: string, pad: string, suffix: string)
    requires BlackEdges(core) && |word| == 2 && (forall i :: 0 <= i < |word| ==> !('A' <= word[i] <= 'Z'))
    requires EndsWith(Lower(core), word)
    requires ParseUnsigned(Trim(Lower(core)[..|core| - 2]), 10, USIZE_LIMIT) == Some(n)
    ensures core == num + pad + suffix && Decimal(num, n) && AllWhite(pad) && Spells(suffix, word) && n < USIZE_LIMIT
  {
    var s := Lower(core);
    var t := s[..|s| - 2];
    var r := Trim(t);
    DecimalIff(r, USIZE_LIMIT, n);
    DecimalChars(r, n);
    assert |t| > 0 by { TrimExact(t, r); }
    assert t[0] == LowerChar(core[0]);
    LowerKeeps(core[0]);
    var b := TrimTail(t);
    assert s == r + b + word by { assert s == t + s[|s| - 2..]; }
    num, pad, suffix := core[..|r|], core[|r|..|r| + |b|], core[|r| + |b|..];
    SameUpToCase(core, r, b, word);
  }

  lemma SameUpToCase(core: string, r: string, b: string, word: string)
    requires Lower(core) == r + b + word && |word| == 2 && AllWhite(b)
    requires forall i :: 0 <= i < |r| ==> '0' <= r[i] <= '9' || r[i] == '+'
    requires forall i :: 0 <= i < |word| ==> !('A' <= word[i] <= 'Z')
    ensures |core| == |r| + |b| + 2 && core[..|r|] == r && AllWhite(core[|r|..|r| + |b|])
    ensures Spells(core[|r| + |b|..], word) && core == core[..|r|] + core[|r|..|r| + |b|] + core[|r| + |b|..]
  {
    var s := Lower(core);
    forall i | 0 <= i < |r| ensures core[i] == r[i] {
      assert s[i] == LowerChar(core[i]) == r[i];
      LowerKeeps(core[i]);
    }
    var pad := core[|r|..|r| + |b|];
    forall i | 0 <= i < |pad| ensures White(pad[i]) {
      assert s[|r| + i] == LowerChar(core[|r| + i]) == b[i] && pad[i] == core[|r| + i];
      LowerKeeps(pad[i]);
    }
    var suffix := core[|r| + |b|..];
    forall i | 0 <= i < 2 ensures Lower(suffix)[i] == word[i] {
      assert s[|r| + |b| + i] == LowerChar(core[|r| + |b| + i]) == word[i];
    }
    LowerFixed(word);
    LowerSpells(suffix, word);
  }

  lemma SizeSeen(text: string, v: nat) returns (num: string, pad: string, suffix: string, n: nat)
    requires ParseMemory(text) == Some(v)
    ensures SizeAs(Trim(text), v, num, pad, suffix, n)
  {
    var s := Lower(Trim(text));
    if EndsWith(s, "mb") {
      num, pad, suffix, n := ScaledSizeSeen(text, v, "mb", 1048576);
    } else if EndsWith(s, "gb") {
      num, pad, suffix, n := ScaledSizeSeen(text, v, "gb", 1073741824);
    } else if EndsWith(s, "kb") {
      num, pad, suffix, n := ScaledSizeSeen(text, v, "kb", 1024);
    } else {
      num, pad, suffix, n := Trim(text), "", "", v;
      BareSizeSeen(Trim(text), n);
    }
  }

  lemma ScaledSizeSeen(text: string, v: nat, word: string, factor: nat)
    returns (num: string, pad: string, suffix: string, n: nat)
    requires IsUnit(word, factor) && EndsWith(Lower(Trim(text)), word)
    requires Scaled(Lower(Trim(text))[..|Trim(text)| - 2], factor) == Some(v)
    ensures SizeAs(Trim(text), v, num, pad, suffix, n)
  {
    var core := Trim(text);
    TrimExact(text, core);
    n := ParseUnsigned(Trim(Lower(core)[..|core| - 2]), 10, USIZE_LIMIT).value;
    num, pad, suffix := UnitSizeSeen(core, word, n);
  }

  lemma BareSizeSeen(core: string, n: nat)
    requires ParseUnsigned(Lower(core), 10, USIZE_LIMIT) == Some(n)
    ensures Decimal(core, n) && n < USIZE_LIMIT && core == core + "" + ""
  {
    var s := Lower(core);
    DecimalIff(s, USIZE_LIMIT, n);
    DecimalChars(s, n);
    forall i | 0 <= i < |core| ensures core[i] == s[i] {
      LowerKeeps(core[i]);
    }
    assert core == s;
  }

  /** What a size says, for every text: a numeral, perhaps white space, and a unit in any case, or just a numeral. */
  lemma MemoryExact(text: string, v: nat)
    ensures ParseMemory(text) == Some(v) <==> exists num, pad, suffix, n :: SizeAs(Trim(text), v, num, pad, suffix, n)
  {
    if ParseMemory(text) == Some(v) {
      var num, pad, suffix, n := SizeSeen(text, v);
    }
    forall num, pad, suffix, n | SizeAs(Trim(text), v, num, pad, suffix, n) ensures ParseMemory(text) == Some(v) {
      SizeReads(text, v, num, pad, suffix, n);
    }
  }
}
