/** The chunked body of section 7.1 of RFC 9112, and where the decoder keeps to it. */
module ChunkedBody {
  import opened Optional
  import opened Text
  import opened Utf8
  import opened Http

  // ----- the grammar: bytes, tokens and quoted strings (section 5.6 of RFC 9110)

  predicate Blank(c: char) {
    c == ' ' || c == '\t'
  }

  /** Visible ASCII or a byte above it. */
  predicate VisibleOrHigh(c: char) {
    0x21 <= c as nat <= 0x7E || 0x80 <= c as nat <= 0xFF
  }

  predicate FieldChar(c: char) {
    Blank(c) || VisibleOrHigh(c)
  }

  predicate FieldText(s: string) {
    forall i :: 0 <= i < |s| ==> FieldChar(s[i])
  }

  predicate Blanks(s: string) {
    forall i :: 0 <= i < |s| ==> Blank(s[i])
  }

  predicate TokenChar(c: char) {
    || '0' <= c <= '9' || 'a' <= c <= 'z' || 'A' <= c <= 'Z'
    || c in "!#$%&'*+-.^_`|~"
  }

  predicate Token(s: string) {
    s != "" && forall i :: 0 <= i < |s| ==> TokenChar(s[i])
  }

  /** What may stand between two double quotes. */
  predicate QuotedText(s: string) {
    s == ""
    || (FieldChar(s[0]) && s[0] != '"' && s[0] != '\\' && QuotedText(s[1..]))
    || (s[0] == '\\' && |s| >= 2 && FieldChar(s[1]) && QuotedText(s[2..]))
  }

  predicate QuotedString(s: string) {
    |s| >= 2 && s[0] == '"' && s[|s| - 1] == '"' && QuotedText(s[1..|s| - 1])
  }

  // ----- chunk extensions, size lines and trailers

  /** `;name` or `;name=value`, with blanks before and after the semicolon and the equals sign. */
  datatype Ext = Ext(before: string, after: string, name: string, value: Option<ExtValue>)

  datatype ExtValue = ExtValue(before: string, after: string, text: string)

  predicate GoodExt(e: Ext) {
    && Blanks(e.before) && Blanks(e.after) && Token(e.name)
    && (e.value.Some? ==>
        && Blanks(e.value.value.before) && Blanks(e.value.value.after)
        && (Token(e.value.value.text) || QuotedString(e.value.value.text)))
  }

  function ExtText(e: Ext): string {
    e.before + ";" + e.after + e.name
    + match e.value case None => "" case Some(v) => v.before + "=" + v.after + v.text
  }

  function ExtsText(es: seq<Ext>): string {
    if es == [] then "" else ExtText(es[0]) + ExtsText(es[1..])
  }

  predicate GoodExts(es: seq<Ext>) {
    forall i :: 0 <= i < |es| ==> GoodExt(es[i])
  }

  /** A hexadecimal size with its extensions. */
  ghost predicate SizeLine(line: string, n: nat) {
    exists size, es :: SizeText(size, n) && GoodExts(es) && line == size + ExtsText(es)
  }

  ghost predicate FieldLine(line: string) {
    exists name, value :: Token(name) && FieldText(value) && line == name + ":" + value
  }

  function TrailerText(fields: seq<string>): string {
    if fields == [] then CRLF else fields[0] + CRLF + TrailerText(fields[1..])
  }

  /** Field lines, each with its line break, and the line break that ends the body. */
  ghost predicate TrailerEnd(s: string) {
    exists fields: seq<string> :: (forall i :: 0 <= i < |fields| ==> FieldLine(fields[i])) && s == TrailerText(fields)
  }

  // ----- the body

  ghost predicate StandardPiece(p: Piece) {
    p.data != "" && p.end == CRLF && SizeLine(p.line, |p.data|)
  }

  /** What section 7.1 asks of the pieces, the last size line and the rest. */
  ghost predicate StandardParts(ps: seq<Piece>, last: string, after: string) {
    (forall i :: 0 <= i < |ps| ==> StandardPiece(ps[i])) && SizeLine(last, 0) && TrailerEnd(after)
  }

  ghost predicate Standard(data: string, ps: seq<Piece>, last: string, after: string) {
    StandardParts(ps, last, after) && data == Wire(ps, last + CRLF + after)
  }

  /** A chunked body by the grammar alone. */
  ghost predicate IsChunkedBody(data: string) {
    exists ps, last, after :: Standard(data, ps, last, after)
  }

  // ----- size lines as the decoder reads them

  lemma {:induction false} QuotedIsFieldText(s: string)
    requires QuotedText(s)
    ensures FieldText(s)
    decreases |s|
  {
    if s != "" {
      if s[0] == '\\' && |s| >= 2 && FieldChar(s[1]) && QuotedText(s[2..]) {
        QuotedIsFieldText(s[2..]);
        assert s == [s[0], s[1]] + s[2..];
      } else {
        QuotedIsFieldText(s[1..]);
        assert s == [s[0]] + s[1..];
      }
    }
  }

  lemma QuotedStringIsFieldText(s: string)
    requires QuotedString(s)
    ensures FieldText(s)
  {
    QuotedIsFieldText(s[1..|s| - 1]);
    var inner := s[1..|s| - 1];
    assert forall i :: 1 <= i < |s| - 1 ==> s[i] == inner[i - 1];
  }

  lemma TokenIsFieldText(s: string)
    requires Token(s)
    ensures FieldText(s)
  {
  }

  lemma ExtIsFieldText(e: Ext)
    requires GoodExt(e)
    ensures FieldText(ExtText(e))
  {
    TokenIsFieldText(e.name);
    if e.value.Some? {
      var text := e.value.value.text;
      if Token(text) { TokenIsFieldText(text); } else { QuotedStringIsFieldText(text); }
    }
  }

  lemma {:induction false} ExtsAreFieldText(es: seq<Ext>)
    requires GoodExts(es)
    ensures FieldText(ExtsText(es))
  {
    if es != [] {
      ExtIsFieldText(es[0]);
      ExtsAreFieldText(es[1..]);
    }
  }

  /** Extensions begin with blanks and a semicolon. */
  lemma ExtsBegin(es: seq<Ext>) returns (pad: string, rest: string)
    requires GoodExts(es)
    ensures Blanks(pad) && ExtsText(es) == pad + rest && (rest == "" ==> pad == "") && (rest != "" ==> rest[0] == ';')
  {
    if es == [] {
      pad, rest := "", "";
    } else {
      pad := es[0].before;
      rest := ";" + (ExtsText(es)[|pad| + 1..]);
      assert ExtText(es[0])[..|pad|] == pad && ExtText(es[0])[|pad|] == ';';
      assert ExtsText(es) == ExtText(es[0]) + ExtsText(es[1..]);
      assert ExtsText(es)[..|pad|] == pad && ExtsText(es)[|pad|] == ';';
    }
  }

  lemma FieldTextNoCr(s: string)
    requires FieldText(s)
    ensures Without(s, '\r')
  {
  }

  lemma SizeIsHex(size: string, n: nat)
    requires SizeText(size, n)
    ensures forall i :: 0 <= i < |size| ==>
      size[i] as nat < 0x80 && size[i] != ';' && size[i] != '\r' && !IsSpace(size[i]) && size[i] != '+'
  {
    DenotesDigits(size, n);
    forall i | 0 <= i < |size|
      ensures size[i] as nat < 0x80 && size[i] != ';' && size[i] != '\r' && !IsSpace(size[i]) && size[i] != '+'
    {
      DigitChar(size[i]);
    }
  }

  lemma {:induction false} TrimEndPadded(s: string, pad: string)
    requires s != "" && !IsSpace(s[|s| - 1]) && Blanks(pad)
    ensures TrimEnd(s + pad) == s
    decreases |pad|
  {
    var t := s + pad;
    if pad == "" {
      assert t == s;
    } else {
      assert t[|t| - 1] == pad[|pad| - 1];
      assert t[..|t| - 1] == s + pad[..|pad| - 1];
      TrimEndPadded(s, pad[..|pad| - 1]);
    }
  }

  lemma TrimBefore(s: string, pad: string)
    requires s != "" && !IsSpace(s[0]) && !IsSpace(s[|s| - 1]) && Blanks(pad)
    ensures Trim(s + pad) == s
  {
    assert (s + pad)[0] == s[0];
    TrimEndPadded(s, pad);
  }

  /** A size line of the grammar is a line to the decoder, and means the same size if it is UTF-8 and fits. */
  lemma {:induction false} SizeLineReads(line: string, n: nat)
    requires SizeLine(line, n)
    ensures IsLine(line)
    ensures ChunkSize(line) == if ValidUtf8(line) && n < USIZE_LIMIT then Some(n) else None
  {
    var size, es :| SizeText(size, n) && GoodExts(es) && line == size + ExtsText(es);
    var pad, rest := ExtsBegin(es);
    SizeLineIsLine(size, es, n);
    SizeIsHex(size, n);
    FrontOfLine(line, size, pad, rest);
    TrimBefore(size, pad);
    SizeOfFront(line, size, pad, n);
  }

  lemma {:induction false} SizeOfFront(line: string, size: string, pad: string, n: nat)
    requires line[..IndexOf(line, ';')] == size + pad && Trim(size + pad) == size
    requires SizeText(size, n) && size[0] != '+'
    ensures ChunkSize(line) == if ValidUtf8(line) && n < USIZE_LIMIT then Some(n) else None
  {
    DenotesDigits(size, n);
  }

  lemma {:induction false} SizeLineIsLine(size: string, es: seq<Ext>, n: nat)
    requires SizeText(size, n) && GoodExts(es)
    ensures IsLine(size + ExtsText(es))
  {
    ExtsAreFieldText(es);
    FieldTextNoCr(ExtsText(es));
    SizeIsHex(size, n);
    NoCrIsLine(size + ExtsText(es));
  }

  lemma NoCrIsLine(line: string)
    requires Without(line, '\r')
    ensures IsLine(line)
  {
    FindAfterLine(line, "");
    assert line + (CRLF + "") == line + CRLF;
  }

  lemma FrontOfLine(line: string, size: string, pad: string, rest: string)
    requires line == size + (pad + rest) && Without(size, ';') && Blanks(pad)
    requires (rest == "" ==> pad == "") && (rest != "" ==> rest[0] == ';')
    ensures line[..IndexOf(line, ';')] == size + pad
  {
    var i := |size| + |pad|;
    assert line == size + pad + rest;
    assert forall j :: 0 <= j < i ==> line[j] != ';';
    IndexOfUnique(line, ';', i);
  }

  // ----- the two decompositions

  /** A decoded input has one decomposition only. */
  lemma {:induction false} DecompositionUnique(
    data: string, ps: seq<Piece>, l: string, a: string, qs: seq<Piece>, m: string, b: string)
    requires Decomposes(data, ps, l, a) && Decomposes(data, qs, m, b)
    ensures ps == qs && l == m && a == b
    decreases |ps|
  {
    var x, xs := FirstLine(data, ps, l, a);
    var y, ys := FirstLine(data, qs, m, b);
    if ps != [] {
      var p, q := ps[0], qs[0];
      SameSplit(p.data, p.end, Wire(ps[1..], l + CRLF + a), q.data, q.end, Wire(qs[1..], m + CRLF + b));
      TailDecomposes(data, ps, l, a);
      TailDecomposes(data, qs, m, b);
      DecompositionUnique(Wire(ps[1..], l + CRLF + a), ps[1..], l, a, qs[1..], m, b);
      assert ps == [p] + ps[1..] && qs == [q] + qs[1..];
    }
  }

  lemma SameSplit(a: string, b: string, c: string, d: string, e: string, f: string)
    requires a + (b + c) == d + (e + f) && |a| == |d| && |b| == |e|
    ensures a == d && b == e && c == f
  {
    var s := a + (b + c);
    assert s[..|a|] == a && s[..|d|] == d;
    assert s[|a|..] == b + c && s[|d|..] == e + f;
    assert (b + c)[..|b|] == b && (e + f)[..|e|] == e;
    assert (b + c)[|b|..] == c && (e + f)[|e|..] == f;
  }

  lemma {:induction false} TailDecomposes(data: string, ps: seq<Piece>, last: string, after: string)
    requires Decomposes(data, ps, last, after) && ps != []
    ensures IsPiece(ps[0]) && Decomposes(Wire(ps[1..], last + CRLF + after), ps[1..], last, after)
  {
  }

  /** The first line of a decomposed input, and what follows it. */
  lemma FirstLine(data: string, ps: seq<Piece>, last: string, after: string) returns (line: string, rest: string)
    requires Decomposes(data, ps, last, after)
    ensures Find(data, CRLF) == Some(|line|) && data[..|line|] == line && data[|line| + 2..] == rest
    ensures ps == [] ==> line == last && rest == after && ChunkSize(line) == Some(0)
    ensures ps != [] ==> line == ps[0].line && ChunkSize(line) == Some(|ps[0].data|) && |ps[0].data| > 0
    ensures ps != [] ==> rest == ps[0].data + (ps[0].end + Wire(ps[1..], last + CRLF + after))
  {
    if ps == [] {
      line, rest := last, after;
    } else {
      line, rest := ps[0].line, ps[0].data + (ps[0].end + Wire(ps[1..], last + CRLF + after));
    }
    LineThen(line, rest);
  }

  /** What the decoder asks beyond the grammar: UTF-8 in the size lines, and sizes that fit. */
  predicate Readable(ps: seq<Piece>, last: string) {
    && (forall i :: 0 <= i < |ps| ==> ValidUtf8(ps[i].line) && |ps[i].data| + 2 < USIZE_LIMIT)
    && ValidUtf8(last)
  }

  /** The first size line of a chunked body, as the decoder meets it. */
  lemma {:induction false} StandardFirst(data: string, ps: seq<Piece>, last: string, after: string)
    requires Standard(data, ps, last, after) && ps != []
    ensures var p, tail := ps[0], Wire(ps[1..], last + CRLF + after);
      && |p.data| > 0 && |p.end| == 2
      && Find(data, CRLF) == Some(|p.line|) && data[..|p.line|] == p.line
      && ChunkSize(p.line) == (if ValidUtf8(p.line) && |p.data| < USIZE_LIMIT then Some(|p.data|) else None)
      && data[|p.line| + 2..] == p.data + (p.end + tail) && Standard(tail, ps[1..], last, after)
  {
    var p, tail := ps[0], Wire(ps[1..], last + CRLF + after);
    assert StandardPiece(p);
    SizeLineReads(p.line, |p.data|);
    LineThen(p.line, p.data + (p.end + tail));
  }

  lemma {:induction false} ReadableIsNeeded(data: string, ps: seq<Piece>, last: string, after: string)
    requires Standard(data, ps, last, after) && Chunked(data).Ok?
    ensures Readable(ps, last)
    decreases |ps|
  {
    var i, n := ChunkedBegins(data);
    if ps == [] {
      SizeLineReads(last, 0);
      LineThen(last, after);
    } else {
      var p, tail := ps[0], Wire(ps[1..], last + CRLF + after);
      StandardFirst(data, ps, last, after);
      AfterChunk(p.data, p.end, tail);
      assert data[i + 2..][n + 2..] == tail;
      ReadableIsNeeded(tail, ps[1..], last, after);
      ReadableCons(ps, last);
    }
  }

  lemma ReadableCons(ps: seq<Piece>, last: string)
    requires ps != [] && Readable(ps[1..], last)
    requires ValidUtf8(ps[0].line) && |ps[0].data| + 2 < USIZE_LIMIT
    ensures Readable(ps, last)
  {
    assert ps == [ps[0]] + ps[1..];
  }

  lemma ReadableDecomposes(data: string, ps: seq<Piece>, last: string, after: string)
    requires Standard(data, ps, last, after) && Readable(ps, last)
    ensures Decomposes(data, ps, last, after)
  {
    forall i | 0 <= i < |ps| ensures IsPiece(ps[i]) {
      assert StandardPiece(ps[i]);
      SizeLineReads(ps[i].line, |ps[i].data|);
    }
    SizeLineReads(last, 0);
  }

  /** A chunked body is decoded to its content exactly when its size lines are UTF-8 and its sizes fit. */
  lemma {:induction false} StandardReads(data: string, ps: seq<Piece>, last: string, after: string)
    requires Standard(data, ps, last, after)
    ensures Chunked(data) == if Readable(ps, last) then Ok(Content(ps)) else Err(InvalidChunk)
  {
    if Readable(ps, last) {
      ReadableDecomposes(data, ps, last, after);
      ChunkedAccepts(data, ps, last, after);
    } else {
      if Chunked(data).Ok? { ReadableIsNeeded(data, ps, last, after); }
      OnlyInvalidChunk(data);
    }
  }

  lemma {:induction false} OnlyInvalidChunk(data: string)
    ensures Chunked(data).Err? ==> Chunked(data) == Err(InvalidChunk)
    decreases |data|
  {
    var r := RoundOf(data);
    if r.More? { OnlyInvalidChunk(r.rest); }
  }

  /**
   * A decoded input is a chunked body of section 7.1 exactly when its size lines are hexadecimal digits with
   * extensions, a line break follows each chunk, and a trailer section and a line break end it.
   */
  lemma DecodedStandardIff(data: string, ps: seq<Piece>, last: string, after: string)
    requires Decomposes(data, ps, last, after)
    ensures IsChunkedBody(data) <==> StandardParts(ps, last, after)
  {
    if IsChunkedBody(data) {
      var qs, m, b :| Standard(data, qs, m, b);
      ChunkedAccepts(data, ps, last, after);
      ReadableIsNeeded(data, qs, m, b);
      ReadableDecomposes(data, qs, m, b);
      DecompositionUnique(data, ps, last, after, qs, m, b);
    } else if StandardParts(ps, last, after) {
      assert Standard(data, ps, last, after);
    }
  }

  // ----- inputs on which the two part

  lemma NoPieces(last: string, after: string)
    requires IsLine(last) && ChunkSize(last) == Some(0)
    ensures Decomposes(last + CRLF + after, [], last, after)
  {
  }

  lemma OnePiece(p: Piece, last: string, after: string)
    requires IsPiece(p) && IsLine(last) && ChunkSize(last) == Some(0)
    ensures Decomposes(p.line + CRLF + (p.data + (p.end + (last + CRLF + after))), [p], last, after)
  {
    var ps := [p];
    assert ps[1..] == [];
  }

  lemma {:induction false} SizeLineOf(size: string, es: seq<Ext>, n: nat)
    requires SizeText(size, n) && GoodExts(es)
    ensures SizeLine(size + ExtsText(es), n)
  {
  }

  /** A line of one hexadecimal digit. */
  lemma DigitLine(line: string, n: nat)
    requires |line| == 1 && DigitValue(line[0]) == Some(n)
    ensures SizeLine(line, n) && IsLine(line) && ChunkSize(line) == Some(n)
  {
    assert line[..|line| - 1] == [];
    SizeLineOf(line, [], n);
    assert line + ExtsText([]) == line;
    SizeLineReads(line, n);
    DigitChar(line[0]);
    AsciiIsUtf8(line);
  }

  /** Any two bytes pass for the line break after a chunk. */
  lemma AnyEndAccepted(p: Piece, last: string, after: string)
    requires IsPiece(p) && IsLine(last) && ChunkSize(last) == Some(0)
    ensures var data := p.line + CRLF + (p.data + (p.end + (last + CRLF + after)));
      Chunked(data) == Ok(p.data) && (IsChunkedBody(data) ==> p.end == CRLF)
  {
    OnePiece(p, last, after);
    var data := p.line + CRLF + (p.data + (p.end + (last + CRLF + after)));
    ChunkedAccepts(data, [p], last, after);
    assert [p][1..] == [] && Content([p][1..]) == "" && p.data + "" == p.data;
    DecodedStandardIff(data, [p], last, after);
    if IsChunkedBody(data) { assert StandardPiece([p][0]); }
  }

  /** For one, a chunk of one byte followed by two others. */
  lemma WrongEndAccepted()
    ensures var data := "1" + CRLF + ("a" + ("XX" + ("0" + CRLF + "")));
      Chunked(data) == Ok("a") && !IsChunkedBody(data)
  {
    DigitLine("1", 1);
    DigitLine("0", 0);
    AnyEndAccepted(Piece("1", "a", "XX"), "0", "");
  }

  /** The input may stop after the zero-size line. */
  lemma MissingTrailerAccepted()
    ensures Chunked("0" + CRLF + "") == Ok("") && !IsChunkedBody("0" + CRLF + "")
  {
    DigitLine("0", 0);
    NoPieces("0", "");
    ChunkedAccepts("0" + CRLF + "", [], "0", "");
    DecodedStandardIff("0" + CRLF + "", [], "0", "");
    if fields: seq<string> :| "" == TrailerText(fields) { TrailerNotEmpty(fields); }
  }

  lemma {:induction false} TrailerNotEmpty(fields: seq<string>)
    ensures TrailerText(fields) != ""
  {
  }

  lemma SizeLineBegins(line: string, n: nat)
    requires SizeLine(line, n)
    ensures line != "" && DigitValue(line[0]).Some?
  {
    var size, es :| SizeText(size, n) && GoodExts(es) && line == size + ExtsText(es);
    DenotesDigits(size, n);
    assert line[0] == size[0];
  }

  /** A last size line that does not begin with a digit, yet reads as zero. */
  lemma {:induction false} NoDigitFirst(last: string)
    requires IsLine(last) && ChunkSize(last) == Some(0) && last != "" && DigitValue(last[0]).None?
    ensures Chunked(last + CRLF + CRLF) == Ok("") && !IsChunkedBody(last + CRLF + CRLF)
  {
    NoPieces(last, CRLF);
    ChunkedAccepts(last + CRLF + CRLF, [], last, CRLF);
    DecodedStandardIff(last + CRLF + CRLF, [], last, CRLF);
    if SizeLine(last, 0) { SizeLineBegins(last, 0); }
  }

  /** A sign, or white space, passes in front of the size. */
  lemma SignAccepted(first: char)
    requires first == '+' || (IsSpace(first) && first != '\r')
    ensures Chunked([first] + "0" + CRLF + CRLF) == Ok("") && !IsChunkedBody([first] + "0" + CRLF + CRLF)
  {
    var line := [first] + "0";
    DigitLine("0", 0);
    NoCrIsLine(line);
    AsciiIsUtf8(line);
    IndexOfUnique(line, ';', |line|);
    assert line[..|line|] == line;
    SignedZero(line);
    NoDigitFirst(line);
  }

  lemma SignedZero(line: string)
    requires |line| == 2 && (line[0] == '+' || IsSpace(line[0])) && line[1] == '0'
    ensures ParseUnsigned(Trim(line), 16, USIZE_LIMIT) == Some(0)
  {
    var digits := line[1..];
    assert digits == "0" && digits[..|digits| - 1] == [];
    assert DigitsValue(digits, 16) == Some(0);
    if line[0] == '+' {
      TrimPadded("", line);
    } else {
      assert TrimStart(line) == TrimStart(line[1..]) == digits;
    }
  }

  /** A semicolon passes for an extension without its name. */
  lemma {:induction false} BareSemicolonAccepted(line: string)
    requires line == "0" + ";"
    ensures Chunked(line + CRLF + CRLF) == Ok("") && !IsChunkedBody(line + CRLF + CRLF)
  {
    DigitLine("0", 0);
    ChunkSizeReads("0", ";", 0);
    NoCrIsLine(line);
    NoPieces(line, CRLF);
    ChunkedAccepts(line + CRLF + CRLF, [], line, CRLF);
    DecodedStandardIff(line + CRLF + CRLF, [], line, CRLF);
    if SizeLine(line, 0) { ExtensionHasName(line, 0); }
  }

  lemma ExtensionHasName(line: string, n: nat)
    requires SizeLine(line, n) && |line| == 2
    ensures line[1] != ';'
  {
    var size, es :| SizeText(size, n) && GoodExts(es) && line == size + ExtsText(es);
    ExtsLength(es);
    SizeIsHex(size, n);
    assert |line| == |size| + |ExtsText(es)|;
    assert size != "" && line[..|size|] == size;
  }

  lemma {:induction false} ExtsLength(es: seq<Ext>)
    requires GoodExts(es)
    ensures es != [] ==> |ExtsText(es)| >= 2
  {
    if es != [] { assert GoodExt(es[0]) && |ExtText(es[0])| >= 2; }
  }

  /** A chunked body is refused when an extension of its last size line is not UTF-8. */
  lemma {:induction false} NotUtf8Refused(es: seq<Ext>)
    requires GoodExts(es) && !ValidUtf8("0" + ExtsText(es))
    ensures var data := "0" + ExtsText(es) + CRLF + CRLF;
      IsChunkedBody(data) && Chunked(data) == Err(InvalidChunk)
  {
    var line := "0" + ExtsText(es);
    assert SizeText("0", 0) by { assert "0"[..0] == []; }
    SizeLineOf("0", es, 0);
    NoTrailer(line);
    StandardReads(line + CRLF + CRLF, [], line, CRLF);
  }

  lemma NoTrailer(last: string)
    requires SizeLine(last, 0)
    ensures Standard(last + CRLF + CRLF, [], last, CRLF)
  {
    var fields: seq<string> := [];
    assert TrailerText(fields) == CRLF;
  }

  /** And one such extension is grammatical: a quoted value of one high byte. */
  lemma HighByteRefused() returns (es: seq<Ext>)
    ensures GoodExts(es) && !ValidUtf8("0" + ExtsText(es))
    ensures IsChunkedBody("0" + ExtsText(es) + CRLF + CRLF)
    ensures Chunked("0" + ExtsText(es) + CRLF + CRLF) == Err(InvalidChunk)
  {
    var text := ['"', 0x80 as char, '"'];
    HighQuoted(text);
    var e := Ext("", "", "a", Some(ExtValue("", "", text)));
    es := [e];
    assert es[1..] == [];
    assert ExtText(e) == ";a=" + text;
    assert ExtsText(es) == ";a=" + text;
    NotUtf8("0" + ExtsText(es));
    NotUtf8Refused(es);
  }

  lemma HighQuoted(text: string)
    requires text == ['"', 0x80 as char, '"']
    ensures QuotedString(text)
  {
    var inner := text[1..|text| - 1];
    assert inner == [0x80 as char] && inner[1..] == [];
    assert QuotedText(inner[1..]);
  }

  lemma {:induction false} NotUtf8(line: string)
    requires |line| == 7 && line[5] as nat == 0x80 && forall i :: 0 <= i < 5 ==> line[i] as nat < 0x80
    ensures !ValidUtf8(line)
  {
    HighTail(line, 5);
  }

  lemma {:induction false} HighTail(s: string, n: nat)
    requires n < |s| && s[n] as nat == 0x80 && forall i :: 0 <= i < n ==> s[i] as nat < 0x80
    ensures !ValidUtf8(s)
  {
    if n > 0 { HighTail(s[1..], n - 1); }
  }
}
