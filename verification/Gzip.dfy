/** Stripping the envelope of a gzip member (section 2.3 of RFC 1952). */
module Gzip {
  import opened Bytes
  import opened Optional

  datatype Result<+T> = Ok(value: T) | DecompressFailed

  /** The four flag bits that add a field: 0x04, 0x08, 0x10 and 0x02 of the flag byte. */
  datatype Flags = Flags(extra: bool, name: bool, comment: bool, hcrc: bool)

  function FlagsOf(b: byte): Flags {
    Flags(b / 0x04 % 2 == 1, b / 0x08 % 2 == 1, b / 0x10 % 2 == 1, b / 0x02 % 2 == 1)
  }

  // ----- the format

  /** A member field by field. An optional field is there or not, and the flag byte says which are. */
  datatype Member = Member(
    method_: byte, text: bool, reserved: nat, stamp: seq<byte>,
    extra: Option<seq<byte>>, name: Option<seq<byte>>, comment: Option<seq<byte>>, hcrc: Option<seq<byte>>,
    body: seq<byte>, trailer: seq<byte>)

  predicate NoZero(s: seq<byte>) {
    forall i :: 0 <= i < |s| ==> s[i] != 0
  }

  predicate WellFormed(m: Member) {
    && m.reserved < 8 && |m.stamp| == 6 && |m.trailer| == 8
    && (m.extra.Some? ==> |m.extra.value| < 0x1_0000)
    && (m.name.Some? ==> NoZero(m.name.value)) && (m.comment.Some? ==> NoZero(m.comment.value))
    && (m.hcrc.Some? ==> |m.hcrc.value| == 2)
  }

  /** Section 2.3.1: 1 for text, 2 for a header checksum, 4 for an extra field, 8 for a name, 16 for a comment. */
  function FlagByte(m: Member): byte
    requires WellFormed(m)
  {
    (if m.text then 1 else 0) + (if m.hcrc.Some? then 2 else 0) + (if m.extra.Some? then 4 else 0)
    + (if m.name.Some? then 8 else 0) + (if m.comment.Some? then 16 else 0) + 32 * m.reserved
  }

  /** Two bytes, low byte first, then the extra field. */
  function ExtraField(extra: seq<byte>): seq<byte>
    requires |extra| < 0x1_0000
  {
    [|extra| % 0x100, |extra| / 0x100] + extra
  }

  function Fixed(m: Member): (r: seq<byte>)
    requires WellFormed(m)
    ensures |r| == 10
  {
    [0x1f, 0x8b, m.method_, FlagByte(m)] + m.stamp
  }

  function ExtraPart(m: Member): seq<byte>
    requires WellFormed(m)
  {
    match m.extra case None => [] case Some(extra) => ExtraField(extra)
  }

  function NamePart(m: Member): seq<byte>
    requires WellFormed(m)
  {
    match m.name case None => [] case Some(name) => name + [0]
  }

  function CommentPart(m: Member): seq<byte>
    requires WellFormed(m)
  {
    match m.comment case None => [] case Some(comment) => comment + [0]
  }

  function HcrcPart(m: Member): seq<byte>
    requires WellFormed(m)
  {
    match m.hcrc case None => [] case Some(hcrc) => hcrc
  }

  function Encode(m: Member): seq<byte>
    requires WellFormed(m)
  {
    Fixed(m) + (ExtraPart(m) + (NamePart(m) + (CommentPart(m) + (HcrcPart(m) + (m.body + m.trailer)))))
  }

  // ----- the scanner

  /** Past the extra field at `off`, when there is one and it fits. */
  function SkipExtra(data: seq<byte>, off: nat): (r: Result<nat>)
    requires off <= |data|
    ensures r.Ok? ==> off <= r.value <= |data|
  {
    if off + 2 > |data| then DecompressFailed
    else
      var xlen: nat := data[off] as nat + 0x100 * data[off + 1] as nat;
      if off + 2 + xlen > |data| then DecompressFailed else Ok(off + 2 + xlen)
  }

  /** Past the next zero byte. */
  function SkipZero(data: seq<byte>, off: nat): (r: Result<nat>)
    requires off <= |data|
    ensures r.Ok? ==> off < r.value <= |data|
    decreases |data| - off
  {
    if off == |data| then DecompressFailed
    else if data[off] == 0 then Ok(off + 1)
    else SkipZero(data, off + 1)
  }

  function AfterExtra(data: seq<byte>, off: nat, flag: bool): (r: Result<nat>)
    requires off <= |data|
    ensures r.Ok? ==> off <= r.value <= |data|
  {
    if flag then SkipExtra(data, off) else Ok(off)
  }

  function AfterZero(data: seq<byte>, off: nat, flag: bool): (r: Result<nat>)
    requires off <= |data|
    ensures r.Ok? ==> off <= r.value <= |data|
  {
    if flag then SkipZero(data, off) else Ok(off)
  }

  /** Past the variable part of the header, the header checksum apart. */
  function Header(data: seq<byte>, flags: Flags): (r: Result<nat>)
    requires |data| >= 10
    ensures r.Ok? ==> 10 <= r.value <= |data|
  {
    match AfterExtra(data, 10, flags.extra)
    case DecompressFailed => DecompressFailed
    case Ok(v1) =>
      match AfterZero(data, v1, flags.name)
      case DecompressFailed => DecompressFailed
      case Ok(v2) => AfterZero(data, v2, flags.comment)
  }

  function Strip(data: seq<byte>): Result<seq<byte>> {
    if |data| < 18 || data[0] != 0x1f || data[1] != 0x8b then DecompressFailed
    else
      var flags := FlagsOf(data[3]);
      match Header(data, flags)
      case DecompressFailed => DecompressFailed
      case Ok(v) =>
        var offset := if flags.hcrc then v + 2 else v;
        if offset > |data| - 8 then DecompressFailed else Ok(data[offset..|data| - 8])
  }

  // ----- stripping inverts encoding

  lemma Slice(data: seq<byte>, off: nat, part: seq<byte>, rest: seq<byte>)
    requires off <= |data| && data[off..] == part + rest
    ensures off + |part| <= |data| && data[off..off + |part|] == part && data[off + |part|..] == rest
  {
    assert |data| == off + |part| + |rest|;
    assert data[off..off + |part|] == data[off..][..|part|];
    assert data[off + |part|..] == data[off..][|part|..];
  }

  lemma {:induction false} SkipZeroAt(data: seq<byte>, off: nat, v: nat)
    requires off < v <= |data| && data[v - 1] == 0 && NoZero(data[off..v - 1])
    ensures SkipZero(data, off) == Ok(v)
    decreases v - off
  {
    if off + 1 < v {
      assert data[off] == data[off..v - 1][0];
      assert data[off + 1..v - 1] == data[off..v - 1][1..];
      SkipZeroAt(data, off + 1, v);
    }
  }

  lemma {:induction false} SkipZeroSays(data: seq<byte>, off: nat)
    requires off <= |data| && SkipZero(data, off).Ok?
    ensures var v := SkipZero(data, off).value; data[v - 1] == 0 && NoZero(data[off..v - 1])
    decreases |data| - off
  {
    if data[off] != 0 {
      SkipZeroSays(data, off + 1);
      var v := SkipZero(data, off).value;
      assert data[off..v - 1] == [data[off]] + data[off + 1..v - 1];
    }
  }

  lemma {:induction false} SkipNamePart(data: seq<byte>, off: nat, name: seq<byte>)
    requires off + |name| + 1 <= |data| && data[off..off + |name| + 1] == name + [0] && NoZero(name)
    ensures SkipZero(data, off) == Ok(off + |name| + 1)
  {
    var part := data[off..off + |name| + 1];
    assert data[off + |name|] == part[|name|];
    assert data[off..off + |name|] == part[..|name|] == name;
    SkipZeroAt(data, off, off + |name| + 1);
  }

  lemma SkipExtraPart(data: seq<byte>, off: nat, extra: seq<byte>)
    requires |extra| < 0x1_0000 && off + 2 + |extra| <= |data|
    requires data[off..off + 2 + |extra|] == ExtraField(extra)
    ensures SkipExtra(data, off) == Ok(off + 2 + |extra|)
  {
    var part := data[off..off + 2 + |extra|];
    assert data[off] == part[0] && data[off + 1] == part[1];
  }

  /** The scanner's flags of a flag byte are the fields that are there. */
  lemma FlagsAreFields(m: Member)
    requires WellFormed(m)
    ensures FlagsOf(FlagByte(m)) == Flags(m.extra.Some?, m.name.Some?, m.comment.Some?, m.hcrc.Some?)
  {
    BitsOfSum(if m.text then 1 else 0, if m.hcrc.Some? then 1 else 0, if m.extra.Some? then 1 else 0,
              if m.name.Some? then 1 else 0, if m.comment.Some? then 1 else 0, m.reserved, FlagByte(m));
  }

  lemma BitsOfSum(t: nat, h: nat, e: nat, n: nat, c: nat, r: nat, b: nat)
    requires t < 2 && h < 2 && e < 2 && n < 2 && c < 2 && b == t + 2 * h + 4 * e + 8 * n + 16 * c + 32 * r
    ensures b / 2 % 2 == h && b / 4 % 2 == e && b / 8 % 2 == n && b / 16 % 2 == c
  {
    var b1 := h + 2 * e + 4 * n + 8 * c + 16 * r;
    var b2 := e + 2 * n + 4 * c + 8 * r;
    var b3 := n + 2 * c + 4 * r;
    var b4 := c + 2 * r;
    Halved(b, 1, b1, t);
    Halved(b, 2, b2, h);
    Halved(b, 4, b3, e);
    Halved(b, 8, b4, n);
    Halved(b, 16, r, c);
  }

  lemma Halved(b: nat, p: nat, q: nat, d: nat)
    requires p in {1, 2, 4, 8, 16} && b / p == 2 * q + d && d < 2
    ensures b / p % 2 == d && b / (2 * p) == q
  {
  }

  /** Every well-formed member is stripped to exactly its compressed bytes. */
  lemma StripEncode(m: Member)
    requires WellFormed(m)
    ensures Strip(Encode(m)) == Ok(m.body)
  {
    var data := Encode(m);
    var v1 := 10 + |ExtraPart(m)|;
    var v2 := v1 + |NamePart(m)|;
    var v3 := v2 + |CommentPart(m)|;
    Slices(data, Fixed(m), ExtraPart(m), NamePart(m), CommentPart(m), HcrcPart(m) + (m.body + m.trailer));
    HeaderSkips(data, m, v1, v2, v3);
    StripFrom(data, m, v3);
  }

  lemma Slices(data: seq<byte>, a: seq<byte>, b: seq<byte>, c: seq<byte>, d: seq<byte>, rest: seq<byte>)
    requires data == a + (b + (c + (d + rest)))
    ensures var i := |a|; var j := i + |b|; var k := j + |c|; var l := k + |d|;
      && |data| == l + |rest|
      && data[0..i] == a && data[i..j] == b && data[j..k] == c && data[k..l] == d && data[l..] == rest
  {
    assert data[0..] == data;
    Slice(data, 0, a, b + (c + (d + rest)));
    Slice(data, |a|, b, c + (d + rest));
    Slice(data, |a| + |b|, c, d + rest);
    Slice(data, |a| + |b| + |c|, d, rest);
  }

  lemma StripFrom(data: seq<byte>, m: Member, v3: nat)
    requires WellFormed(m) && 10 <= v3 <= |data| && data[0..10] == Fixed(m)
    requires Header(data, FlagsOf(FlagByte(m))) == Ok(v3)
    requires data[v3..] == HcrcPart(m) + (m.body + m.trailer)
    ensures Strip(data) == Ok(m.body)
  {
    FlagsAreFields(m);
    Slice(data, v3, HcrcPart(m), m.body + m.trailer);
    Slice(data, v3 + |HcrcPart(m)|, m.body, m.trailer);
    assert data[0] == data[0..10][0] && data[1] == data[0..10][1] && data[3] == data[0..10][3];
  }

  lemma HeaderSkips(data: seq<byte>, m: Member, v1: nat, v2: nat, v3: nat)
    requires WellFormed(m) && 10 <= v1 <= v2 <= v3 <= |data|
    requires data[10..v1] == ExtraPart(m) && data[v1..v2] == NamePart(m) && data[v2..v3] == CommentPart(m)
    ensures Header(data, FlagsOf(FlagByte(m))) == Ok(v3)
  {
    var flags := FlagsOf(FlagByte(m));
    FlagsAreFields(m);
    assert AfterExtra(data, 10, flags.extra) == Ok(v1) by {
      if flags.extra { SkipExtraPart(data, 10, m.extra.value); }
    }
    assert AfterZero(data, v1, flags.name) == Ok(v2) by {
      if flags.name { SkipNamePart(data, v1, m.name.value); }
    }
    assert AfterZero(data, v2, flags.comment) == Ok(v3) by {
      if flags.comment { SkipNamePart(data, v2, m.comment.value); }
    }
  }

  // ----- and accepts nothing else

  lemma AcceptedExtra(data: seq<byte>, off: nat)
    requires off <= |data| && SkipExtra(data, off).Ok?
    ensures var v := SkipExtra(data, off).value;
      off + 2 <= v && v - off - 2 < 0x1_0000 && data[off..v] == ExtraField(data[off + 2..v])
  {
    var v := SkipExtra(data, off).value;
    assert data[off..v] == [data[off], data[off + 1]] + data[off + 2..v];
  }

  lemma {:induction false} AcceptedZero(data: seq<byte>, off: nat)
    requires off <= |data| && SkipZero(data, off).Ok?
    ensures var v := SkipZero(data, off).value;
      NoZero(data[off..v - 1]) && data[off..v] == data[off..v - 1] + [0]
  {
    SkipZeroSays(data, off);
  }

  lemma ExtraSeen(data: seq<byte>, off: nat, flag: bool) returns (extra: seq<byte>)
    requires off <= |data| && AfterExtra(data, off, flag).Ok?
    ensures |extra| < 0x1_0000
    ensures var v := AfterExtra(data, off, flag).value;
      if flag then data[off..v] == ExtraField(extra) else extra == [] && v == off
  {
    extra := [];
    if flag {
      AcceptedExtra(data, off);
      extra := data[off + 2..AfterExtra(data, off, flag).value];
    }
  }

  lemma ZeroSeen(data: seq<byte>, off: nat, flag: bool) returns (field: seq<byte>)
    requires off <= |data| && AfterZero(data, off, flag).Ok?
    ensures NoZero(field)
    ensures var v := AfterZero(data, off, flag).value;
      if flag then data[off..v] == field + [0] else field == [] && v == off
  {
    field := [];
    if flag {
      AcceptedZero(data, off);
      field := data[off..AfterZero(data, off, flag).value - 1];
    }
  }

  lemma AcceptedHeader(data: seq<byte>, flags: Flags) returns (v1: nat, v2: nat, v3: nat)
    requires |data| >= 10 && Header(data, flags).Ok?
    ensures 10 <= v1 <= v2 <= v3 <= |data| && Header(data, flags) == Ok(v3)
    ensures AfterExtra(data, 10, flags.extra) == Ok(v1)
    ensures AfterZero(data, v1, flags.name) == Ok(v2) && AfterZero(data, v2, flags.comment) == Ok(v3)
  {
    v1 := AfterExtra(data, 10, flags.extra).value;
    v2 := AfterZero(data, v1, flags.name).value;
    v3 := AfterZero(data, v2, flags.comment).value;
  }

  /** The member that the scanner saw. */
  lemma StripOnlyMembers(data: seq<byte>) returns (m: Member)
    requires Strip(data).Ok?
    ensures WellFormed(m) && Encode(m) == data
  {
    var flags := FlagsOf(data[3]);
    var v1, v2, v3 := AcceptedHeader(data, flags);
    var extra := ExtraSeen(data, 10, flags.extra);
    var name := ZeroSeen(data, v1, flags.name);
    var comment := ZeroSeen(data, v2, flags.comment);
    var off := if flags.hcrc then v3 + 2 else v3;
    m := MemberOf(data, flags, extra, name, comment, v1, v2, v3, off);
  }

  lemma MemberOf(data: seq<byte>, flags: Flags, extra: seq<byte>, name: seq<byte>, comment: seq<byte>,
                 v1: nat, v2: nat, v3: nat, off: nat) returns (m: Member)
    requires |data| >= 18 && data[0] == 0x1f && data[1] == 0x8b && flags == FlagsOf(data[3])
    requires 10 <= v1 <= v2 <= v3 <= off <= |data| - 8 && off == (if flags.hcrc then v3 + 2 else v3)
    requires |extra| < 0x1_0000 && NoZero(name) && NoZero(comment)
    requires if flags.extra then data[10..v1] == ExtraField(extra) else extra == [] && v1 == 10
    requires if flags.name then data[v1..v2] == name + [0] else name == [] && v2 == v1
    requires if flags.comment then data[v2..v3] == comment + [0] else comment == [] && v3 == v2
    ensures WellFormed(m) && Encode(m) == data
  {
    var end := |data| - 8;
    m := MemberAt(data[2], data[3], data[4..10], flags, extra, name, comment,
                  data[v3..off], data[off..end], data[end..]);
    assert data[..10] == Fixed(m);
    assert data[10..v1] == ExtraPart(m);
    assert data[v1..v2] == NamePart(m);
    assert data[v2..v3] == CommentPart(m);
    Rejoin(data, 10, v1, v2, v3, off, end);
  }

  lemma MemberAt(method_: byte, flagByte: byte, stamp: seq<byte>, flags: Flags,
                 extra: seq<byte>, name: seq<byte>, comment: seq<byte>, hcrc: seq<byte>,
                 body: seq<byte>, trailer: seq<byte>) returns (m: Member)
    requires flags == FlagsOf(flagByte) && |stamp| == 6 && |trailer| == 8
    requires |extra| < 0x1_0000 && NoZero(name) && NoZero(comment) && |hcrc| == if flags.hcrc then 2 else 0
    ensures WellFormed(m) && Fixed(m) == [0x1f, 0x8b, method_, flagByte] + stamp
    ensures m.extra == (if flags.extra then Some(extra) else None)
    ensures m.name == (if flags.name then Some(name) else None)
    ensures m.comment == (if flags.comment then Some(comment) else None)
    ensures HcrcPart(m) == hcrc && m.body == body && m.trailer == trailer
  {
    m := Member(method_, flagByte % 2 == 1, flagByte / 32, stamp,
                if flags.extra then Some(extra) else None, if flags.name then Some(name) else None,
                if flags.comment then Some(comment) else None, if flags.hcrc then Some(hcrc) else None, body, trailer);
    BitSum(flagByte);
  }

  /** A byte is the sum of its bits. */
  lemma BitSum(b: byte)
    ensures b == b % 2 + 2 * (b / 2 % 2) + 4 * (b / 4 % 2) + 8 * (b / 8 % 2) + 16 * (b / 16 % 2) + 32 * (b / 32)
  {
    Halves(b, 1);
    Halves(b, 2);
    Halves(b, 4);
    Halves(b, 8);
    Halves(b, 16);
  }

  lemma Halves(b: nat, p: nat)
    requires p in {1, 2, 4, 8, 16}
    ensures b / p == b / p % 2 + 2 * (b / (2 * p))
  {
  }

  lemma Rejoin(data: seq<byte>, a: nat, b: nat, c: nat, d: nat, e: nat, f: nat)
    requires a <= b <= c <= d <= e <= f <= |data|
    ensures data == data[..a] + (data[a..b] + (data[b..c] + (data[c..d] + (data[d..e] + (data[e..f] + data[f..])))))
  {
    assert data[e..f] + data[f..] == data[e..];
    assert data[d..e] + data[e..] == data[d..];
    assert data[c..d] + data[d..] == data[c..];
    assert data[b..c] + data[c..] == data[b..];
    assert data[a..b] + data[b..] == data[a..];
    assert data[..a] + data[a..] == data;
  }

  /** Acceptance, exactly: the input is the encoding of a well-formed member with that body. */
  lemma StripExact(data: seq<byte>, body: seq<byte>)
    ensures Strip(data) == Ok(body) <==> exists m :: WellFormed(m) && Encode(m) == data && m.body == body
  {
    if Strip(data) == Ok(body) {
      var m := StripOnlyMembers(data);
      StripEncode(m);
    }
    if m :| WellFormed(m) && Encode(m) == data && m.body == body {
      StripEncode(m);
    }
  }

  // ----- what the scanner does not look at

  /** Section 2.3.1 of RFC 1952 also fixes the method, 8, and clears the three reserved flag bits. */
  predicate Standard(m: Member) {
    WellFormed(m) && m.method_ == 8 && m.reserved == 0
  }

  /** With those two bytes checked by the caller, acceptance is exactly that of a standard member. */
  lemma StripStandardIff(data: seq<byte>, body: seq<byte>)
    ensures Strip(data) == Ok(body) && data[2] == 8 && data[3] < 0x20
       <==> exists m :: Standard(m) && Encode(m) == data && m.body == body
  {
    if Strip(data) == Ok(body) && data[2] == 8 && data[3] < 0x20 {
      var m := StripOnlyMembers(data);
      StripEncode(m);
      BytesOfFixed(m);
      assert Standard(m);
    }
    if m :| Standard(m) && Encode(m) == data && m.body == body {
      StripEncode(m);
      BytesOfFixed(m);
    }
  }

  lemma BytesOfFixed(m: Member)
    requires WellFormed(m)
    ensures Encode(m)[2] == m.method_ && Encode(m)[3] == FlagByte(m)
  {
  }

  function Envelope(method_: byte, stamp: seq<byte>, trailer: seq<byte>): Member {
    Member(method_, false, 0, stamp, None, None, None, None, [], trailer)
  }

  /** The scanner does accept another method: an empty body behind a header of method 0. */
  lemma AcceptsMethodZero()
    ensures var m := Envelope(0, [0, 0, 0, 0, 0, 0], [0, 0, 0, 0, 0, 0, 0, 0]);
      && WellFormed(m) && !Standard(m) && Strip(Encode(m)) == Ok([])
  {
    StripEncode(Envelope(0, [0, 0, 0, 0, 0, 0], [0, 0, 0, 0, 0, 0, 0, 0]));
  }

  // ----- the loops

  /** The loop over a zero-terminated field, the same for file name and comment. */
  method PastZero(data: seq<byte>, start: nat) returns (found: bool, offset: nat)
    requires start <= |data|
    ensures SkipZero(data, start) == if found then Ok(offset) else DecompressFailed
  {
    offset := start;
    while offset < |data| && data[offset] != 0
      invariant start <= offset <= |data|
      invariant SkipZero(data, offset) == SkipZero(data, start)
    {
      offset := offset + 1;
    }
    if offset >= |data| {
      return false, offset;
    }
    return true, offset + 1;
  }

  method StripGzipHeader(data: seq<byte>) returns (r: Result<seq<byte>>)
    ensures r == Strip(data)
  {
    if |data| < 18 {
      return DecompressFailed;
    }
    if data[0] != 0x1f || data[1] != 0x8b {
      return DecompressFailed;
    }
    var offset := 10;
    var flags := FlagsOf(data[3]);
    if flags.extra {
      if offset + 2 > |data| {
        return DecompressFailed;
      }
      var xlen: nat := data[offset] as nat + 0x100 * data[offset + 1] as nat;
      offset := offset + 2;
      if offset + xlen > |data| {
        return DecompressFailed;
      }
      offset := offset + xlen;
    }
    ghost var v1 := offset;
    assert AfterExtra(data, 10, flags.extra) == Ok(v1);
    var found := true;
    if flags.name {
      found, offset := PastZero(data, offset);
      if !found {
        return DecompressFailed;
      }
    }
    ghost var v2 := offset;
    assert AfterZero(data, v1, flags.name) == Ok(v2);
    if flags.comment {
      found, offset := PastZero(data, offset);
      if !found {
        return DecompressFailed;
      }
    }
    assert Header(data, flags) == Ok(offset);
    if flags.hcrc {
      offset := offset + 2;
    }
    if offset >= |data| {
      return DecompressFailed;
    }
    var end := |data| - 8;
    if offset > end {
      return DecompressFailed;
    }
    return Ok(data[offset..end]);
  }
}
