/** HTTP/1.1 responses, one char per byte: status line, headers, and the three ways to frame a body. */
module Http {
  import opened Optional
  import opened Text
  import opened Utf8

  const CRLF: string := "\r\n"
  const BLANK: string := "\r\n\r\n"

  datatype HttpError = InvalidResponse | InvalidStatus | InvalidChunk

  datatype Result<+T> = Ok(value: T) | Err(error: HttpError)

  datatype Header = Header(name: string, value: string)

  datatype Response = Response(status: nat, headers: seq<Header>, body: string)

  // ----- searching

  /** The first position where `pat` begins. */
  function Find(s: string, pat: string): (r: Option<nat>)
    requires pat != []
    ensures r.Some? ==> r.value + |pat| <= |s|
  {
    if StartsWith(s, pat) then Some(0)
    else if s == [] then None
    else match Find(s[1..], pat)
      case None => None
      case Some(i) => Some(i + 1)
  }

  /** `s.split("\r\n")`. */
  function Lines(s: string): (r: seq<string>)
    ensures r != []
    decreases |s|
  {
    match Find(s, CRLF)
    case None => [s]
    case Some(i) => [s[..i]] + Lines(s[i + 2..])
  }

  predicate Occurs(s: string, pat: string, i: nat) {
    i + |pat| <= |s| && s[i..i + |pat|] == pat
  }

  predicate FirstAt(s: string, pat: string, i: nat) {
    Occurs(s, pat, i) && forall j: nat :: j < i ==> !Occurs(s, pat, j)
  }

  lemma OccursNext(s: string, pat: string, j: nat)
    requires s != []
    ensures Occurs(s, pat, 0) <==> StartsWith(s, pat)
    ensures Occurs(s, pat, j + 1) <==> Occurs(s[1..], pat, j)
  {
    if j + |pat| < |s| {
      assert s[j + 1..j + 1 + |pat|] == s[1..][j..j + |pat|];
    }
  }

  /** The search finds the first occurrence, or there is none. */
  lemma {:induction false} FindFirst(s: string, pat: string)
    requires pat != []
    ensures Find(s, pat).Some? ==> FirstAt(s, pat, Find(s, pat).value)
    ensures Find(s, pat).None? ==> forall j: nat :: !Occurs(s, pat, j)
  {
    if s != [] {
      FindFirst(s[1..], pat);
      OccursNext(s, pat, 0);
      forall j: nat | Occurs(s, pat, j)
        ensures if j == 0 then StartsWith(s, pat) else Occurs(s[1..], pat, j - 1)
      {
        if j > 0 { OccursNext(s, pat, j - 1); }
      }
    }
  }

  lemma {:induction false} FindSkips(a: string, s: string, pat: string)
    requires Without(a, '\r') && |pat| >= 2 && pat[0] == '\r' && Find(s, pat).Some?
    ensures Find(a + s, pat) == Some(|a| + Find(s, pat).value)
    decreases |a|
  {
    if a == [] {
      assert a + s == s;
    } else {
      var t := a + s;
      assert t[0] == a[0];
      assert t[..|pat|][0] == t[0];
      assert t[1..] == a[1..] + s;
      FindSkips(a[1..], s, pat);
    }
  }

  // ----- chunked bodies

  /** The size in a chunk-size line, extensions dropped. */
  function ChunkSize(line: string): Option<nat> {
    if !ValidUtf8(line) then None
    else ParseUnsigned(Trim(line[..IndexOf(line, ';')]), 16, USIZE_LIMIT)
  }

  /** One round of the decoder: a failure, the last chunk, or a chunk and the input after it. */
  datatype Round = Bad | Last | More(chunk: string, rest: string)

  function RoundOf(data: string): (r: Round)
    ensures r.More? ==> |r.rest| < |data|
  {
    match Find(data, CRLF)
    case None => Bad
    case Some(i) =>
      match ChunkSize(data[..i])
      case None => Bad
      case Some(n) =>
        var rest := data[i + 2..];
        if n == 0 then Last
        else if n + 2 >= USIZE_LIMIT || |rest| < n + 2 then Bad
        else More(rest[..n], rest[n + 2..])
  }

  function Chunked(data: string): Result<string>
    decreases |data|
  {
    match RoundOf(data)
    case Bad => Err(InvalidChunk)
    case Last => Ok("")
    case More(chunk, rest) => Onto(chunk, Chunked(rest))
  }

  function Onto(front: string, r: Result<string>): Result<string> {
    match r
    case Err(e) => Err(e)
    case Ok(b) => Ok(front + b)
  }

  lemma OntoTwice(a: string, b: string, r: Result<string>)
    ensures Onto(a, Onto(b, r)) == Onto(a + b, r)
  {
    if r.Ok? { Associate(a, b, r.value); }
  }

  /** One round of the decoder. */
  lemma {:induction false} ChunkedOnce(data: string, crlf: nat, n: nat)
    requires Find(data, CRLF) == Some(crlf) && ChunkSize(data[..crlf]) == Some(n)
    requires 0 < n && n + 2 < USIZE_LIMIT && |data| >= crlf + 2 + n + 2
    ensures Chunked(data) == Onto(data[crlf + 2..][..n], Chunked(data[crlf + 2..][n + 2..]))
  {
    var rest := data[crlf + 2..];
    assert rest[..n] == data[crlf + 2..][..n] && |rest| >= n + 2;
  }

  lemma {:induction false} FindStable(s: string, t: string, pat: string)
    requires pat != [] && Find(s, pat).Some?
    ensures Find(s + t, pat) == Find(s, pat)
    decreases |s|
  {
    assert (s + t)[..|pat|] == s[..|pat|];
    if !StartsWith(s, pat) {
      assert (s + t)[1..] == s[1..] + t;
      FindStable(s[1..], t, pat);
    }
  }

  lemma {:induction false} ChunkedLast(data: string, crlf: nat)
    requires Find(data, CRLF) == Some(crlf) && ChunkSize(data[..crlf]) == Some(0)
    ensures Chunked(data) == Ok("")
  {
  }

  /** A successful decoding begins with a size line, and goes on after the chunk unless the size is zero. */
  lemma ChunkedBegins(data: string) returns (crlf: nat, n: nat)
    requires Chunked(data).Ok?
    ensures Find(data, CRLF) == Some(crlf) && ChunkSize(data[..crlf]) == Some(n)
    ensures n > 0 ==> n + 2 < USIZE_LIMIT && |data| >= crlf + 2 + n + 2 && Chunked(data[crlf + 2..][n + 2..]).Ok?
  {
    ChunkedLine(data);
    crlf := Find(data, CRLF).value;
    n := ChunkSize(data[..crlf]).value;
    if n > 0 { ChunkedRest(data, crlf, n); }
  }

  lemma {:induction false} ChunkedLine(data: string)
    requires Chunked(data).Ok?
    ensures Find(data, CRLF).Some? && ChunkSize(data[..Find(data, CRLF).value]).Some?
  {
  }

  lemma {:induction false} ChunkedRest(data: string, crlf: nat, n: nat)
    requires Chunked(data).Ok? && Find(data, CRLF) == Some(crlf) && ChunkSize(data[..crlf]) == Some(n) && n > 0
    ensures n + 2 < USIZE_LIMIT && |data| >= crlf + 2 + n + 2 && Chunked(data[crlf + 2..][n + 2..]).Ok?
  {
    assert RoundOf(data) != Bad;
    RoundGoesOn(data, crlf, n);
  }

  lemma {:induction false} RoundGoesOn(data: string, crlf: nat, n: nat)
    requires Find(data, CRLF) == Some(crlf) && ChunkSize(data[..crlf]) == Some(n) && n > 0 && RoundOf(data) != Bad
    ensures n + 2 < USIZE_LIMIT && |data| >= crlf + 2 + n + 2
    ensures RoundOf(data) == More(data[crlf + 2..][..n], data[crlf + 2..][n + 2..])
  {
  }

  lemma Cuts(data: string, extra: string, i: nat, n: nat)
    requires i + 2 + n + 2 <= |data|
    ensures (data + extra)[i + 2..][..n] == data[i + 2..][..n]
    ensures (data + extra)[i + 2..][n + 2..] == data[i + 2..][n + 2..] + extra
  {
  }

  /** A decoded chunked body does not depend on what follows it. */
  lemma {:induction false} ChunkedStable(data: string, extra: string)
    requires Chunked(data).Ok?
    ensures Chunked(data + extra) == Chunked(data)
    decreases |data|
  {
    var i, n := ChunkedBegins(data);
    FindStable(data, extra, CRLF);
    assert (data + extra)[..i] == data[..i];
    if n > 0 {
      Cuts(data, extra, i, n);
      ChunkedStable(data[i + 2..][n + 2..], extra);
      ChunkedOnce(data, i, n);
      ChunkedOnce(data + extra, i, n);
    } else {
      ChunkedLast(data, i);
      ChunkedLast(data + extra, i);
    }
  }

  // What the decoder accepts, exactly. It does not look at the two bytes after a chunk.

  datatype Piece = Piece(line: string, data: string, end: string)

  /** A text that the first line break after it ends. */
  predicate IsLine(line: string) {
    Find(line + CRLF, CRLF) == Some(|line|)
  }

  predicate IsPiece(p: Piece) {
    && IsLine(p.line) && ChunkSize(p.line) == Some(|p.data|)
    && 0 < |p.data| && |p.data| + 2 < USIZE_LIMIT && |p.end| == 2
  }

  function Wire(ps: seq<Piece>, last: string): string {
    if ps == [] then last else ps[0].line + CRLF + (ps[0].data + (ps[0].end + Wire(ps[1..], last)))
  }

  function Content(ps: seq<Piece>): string {
    if ps == [] then "" else ps[0].data + Content(ps[1..])
  }

  predicate Decomposes(data: string, ps: seq<Piece>, last: string, after: string) {
    && (forall i :: 0 <= i < |ps| ==> IsPiece(ps[i]))
    && IsLine(last) && ChunkSize(last) == Some(0)
    && data == Wire(ps, last + CRLF + after)
  }

  lemma {:induction false} FindAt(s: string, pat: string)
    requires pat != [] && Find(s, pat).Some?
    ensures FoundAt(s, pat, Find(s, pat).value)
    decreases |s|, 1
  {
    if StartsWith(s, pat) {
      FindHere(s, pat);
    } else {
      FindShift(s, pat);
      FindTail(s, pat, Find(s[1..], pat).value);
    }
  }

  lemma {:induction false} FindTail(s: string, pat: string, i: nat)
    requires pat != [] && !StartsWith(s, pat) && s != [] && Find(s[1..], pat) == Some(i)
    ensures FoundAt(s, pat, i + 1)
    decreases |s|, 0
  {
    FindAt(s[1..], pat);
    FindLater(s, pat, i + 1 + |pat|);
  }

  /** The pattern is there, and nothing after it matters. */
  predicate FoundAt(s: string, pat: string, i: nat) {
    pat != [] && i + |pat| <= |s| && s[i..i + |pat|] == pat && Find(s[..i + |pat|], pat) == Some(i)
  }

  lemma {:induction false} FindHere(s: string, pat: string)
    requires pat != [] && StartsWith(s, pat)
    ensures Find(s, pat) == Some(0) && FoundAt(s, pat, 0)
  {
    PrefixTwice(s, |pat|, |pat|);
  }

  lemma {:induction false} FindShift(s: string, pat: string)
    requires pat != [] && !StartsWith(s, pat) && Find(s, pat).Some?
    ensures s != "" && Find(s[1..], pat).Some? && Find(s, pat).value == Find(s[1..], pat).value + 1
  {
  }

  lemma {:induction false} FindLater(s: string, pat: string, end: nat)
    requires pat != [] && !StartsWith(s, pat) && |pat| < end <= |s|
    requires FoundAt(s[1..], pat, end - 1 - |pat|)
    ensures FoundAt(s, pat, end - |pat|)
  {
    PrefixTwice(s, end, |pat|);
    TailCut(s, end - |pat|, end);
  }

  lemma PrefixTwice(s: string, end: nat, n: nat)
    requires n <= end <= |s|
    ensures s[..end][..n] == s[..n]
  {
  }

  lemma TailCut(s: string, i: nat, end: nat)
    requires 1 <= i < end <= |s|
    ensures s[..end][1..] == s[1..][..end - 1] && s[1..][i - 1..end - 1] == s[i..end]
  {
  }

  lemma LineThen(line: string, rest: string)
    requires IsLine(line)
    ensures var s := line + CRLF + rest; Find(s, CRLF) == Some(|line|) && s[..|line|] == line && s[|line| + 2..] == rest
  {
    FindStable(line + CRLF, rest, CRLF);
  }

  lemma LineOf(data: string) returns (line: string, rest: string)
    requires Find(data, CRLF).Some?
    ensures IsLine(line) && line == data[..Find(data, CRLF).value] && rest == data[|line| + 2..]
    ensures data == line + CRLF + rest
  {
    var i := Find(data, CRLF).value;
    FindAt(data, CRLF);
    line, rest := data[..i], data[i + 2..];
    assert data[..i + 2] == line + CRLF;
  }

  lemma {:induction false} PieceReads(p: Piece, tail: string)
    requires IsPiece(p)
    ensures Chunked(p.line + CRLF + (p.data + (p.end + tail))) == Onto(p.data, Chunked(tail))
  {
    LineThen(p.line, p.data + (p.end + tail));
    ChunkAfterLine(p.line + CRLF + (p.data + (p.end + tail)), p.line, p.data, p.end, tail);
  }

  lemma {:induction false} ChunkAfterLine(data: string, line: string, chunk: string, end: string, tail: string)
    requires Find(data, CRLF) == Some(|line|) && data[..|line|] == line && ChunkSize(line) == Some(|chunk|)
    requires data[|line| + 2..] == chunk + (end + tail) && 0 < |chunk| && |chunk| + 2 < USIZE_LIMIT && |end| == 2
    ensures Chunked(data) == Onto(chunk, Chunked(tail))
  {
    AfterChunk(chunk, end, tail);
    ChunkedOnce(data, |line|, |chunk|);
  }

  lemma AfterChunk(chunk: string, end: string, tail: string)
    requires |end| == 2
    ensures var r := chunk + (end + tail); r[..|chunk|] == chunk && r[|chunk| + 2..] == tail
  {
  }

  lemma GivePiece(r: string, n: nat)
    requires n + 2 <= |r|
    ensures r == r[..n] + (r[n..n + 2] + r[n + 2..])
  {
  }

  lemma {:induction false} ChunkedAccepts(data: string, ps: seq<Piece>, last: string, after: string)
    requires Decomposes(data, ps, last, after)
    ensures Chunked(data) == Ok(Content(ps))
    decreases |ps|
  {
    if ps == [] {
      LineThen(last, after);
      ChunkedLast(data, |last|);
    } else {
      var tail := Wire(ps[1..], last + CRLF + after);
      PieceReads(ps[0], tail);
      ChunkedAccepts(tail, ps[1..], last, after);
    }
  }

  lemma ChunkedOnly(data: string) returns (ps: seq<Piece>, last: string, after: string)
    requires Chunked(data).Ok?
    ensures Decomposes(data, ps, last, after)
    decreases |data|
  {
    var i, n := ChunkedBegins(data);
    var line, rest := LineOf(data);
    if n == 0 {
      ps, last, after := [], line, rest;
    } else {
      ps, last, after := ChunkedOnly(rest[n + 2..]);
      GivePiece(rest, n);
      PieceBefore(Piece(line, rest[..n], rest[n..n + 2]), rest[n + 2..], ps, last, after);
      ps := [Piece(line, rest[..n], rest[n..n + 2])] + ps;
    }
  }

  lemma PieceBefore(p: Piece, data: string, ps: seq<Piece>, last: string, after: string)
    requires IsPiece(p) && Decomposes(data, ps, last, after)
    ensures Decomposes(p.line + CRLF + (p.data + (p.end + data)), [p] + ps, last, after)
  {
    assert ([p] + ps)[1..] == ps;
  }

  /** The decoder returns a body exactly when the input is sized pieces with that body, a zero size, and anything. */
  lemma {:induction false} ChunkedExact(data: string, body: string)
    ensures Chunked(data) == Ok(body)
       <==> exists ps, last, after :: Decomposes(data, ps, last, after) && Content(ps) == body
  {
    if Chunked(data) == Ok(body) {
      var ps, last, after := ChunkedOnly(data);
      ChunkedAccepts(data, ps, last, after);
    }
    forall ps, last, after | Decomposes(data, ps, last, after) ensures Chunked(data) == Ok(Content(ps)) {
      ChunkedAccepts(data, ps, last, after);
    }
  }

  /** One chunk as sent: its size in hexadecimal, in either case and with leading zeros, and an extension. */
  datatype Chunk = Chunk(size: string, ext: string, data: string)

  predicate SizeText(size: string, n: nat) {
    size != "" && Denotes(size, 16, n)
  }

  lemma {:induction false} DenotesDigits(s: string, n: nat)
    requires Denotes(s, 16, n)
    ensures DigitsValue(s, 16) == Some(n) && forall i :: 0 <= i < |s| ==> DigitValue(s[i]).Some?
  {
    DenotesIff(s, 16, n);
    if s != "" {
      DigitIff(s[|s| - 1], n % 16);
      DenotesDigits(s[..|s| - 1], n / 16);
      assert forall i :: 0 <= i < |s| - 1 ==> s[i] == s[..|s| - 1][i];
    }
  }

  predicate Extension(ext: string) {
    Ascii(ext) && Without(ext, '\r') && (ext == "" || ext[0] == ';')
  }

  predicate Sendable(c: Chunk) {
    c.data != "" && |c.data| + 2 < USIZE_LIMIT && SizeText(c.size, |c.data|) && Extension(c.ext)
  }

  function SendChunks(cs: seq<Chunk>, last: string): string {
    if cs == [] then last
    else cs[0].size + cs[0].ext + (CRLF + (cs[0].data + (CRLF + SendChunks(cs[1..], last))))
  }

  function Payload(cs: seq<Chunk>): string {
    if cs == [] then "" else cs[0].data + Payload(cs[1..])
  }

  lemma DigitChar(c: char)
    requires DigitValue(c).Some?
    ensures c as nat < 0x80 && c != ';' && c != '\r' && !IsSpace(c) && c != '+'
  {
  }

  lemma SizeLineText(size: string, ext: string, n: nat)
    requires SizeText(size, n) && Extension(ext)
    ensures Ascii(size + ext) && Without(size + ext, '\r') && Trimmed(size) && size[0] != '+'
    ensures IndexOf(size + ext, ';') == |size|
  {
    DenotesDigits(size, n);
    forall i | 0 <= i < |size|
      ensures size[i] as nat < 0x80 && size[i] != ';' && size[i] != '\r' && !IsSpace(size[i]) && size[i] != '+'
    {
      DigitChar(size[i]);
    }
    IndexOfUnique(size + ext, ';', |size|);
  }

  lemma ChunkSizeReads(size: string, ext: string, n: nat)
    requires SizeText(size, n) && n < USIZE_LIMIT && Extension(ext)
    ensures ChunkSize(size + ext) == Some(n) && Without(size + ext, '\r')
  {
    SizeLineText(size, ext, n);
    DenotesDigits(size, n);
    AsciiIsUtf8(size + ext);
    assert (size + ext)[..|size|] == size;
    TrimPadded("", size);
  }

  lemma {:induction false} FindAfterLine(line: string, rest: string)
    requires Without(line, '\r')
    ensures Find(line + (CRLF + rest), CRLF) == Some(|line|)
    ensures (line + (CRLF + rest))[..|line|] == line && (line + (CRLF + rest))[|line| + 2..] == rest
  {
    assert StartsWith(CRLF + rest, CRLF);
    FindSkips(line, CRLF + rest, CRLF);
  }

  /** Any split of a body into chunks is decoded to the body, whatever follows the last chunk. */
  lemma {:induction false} ChunkedReads(cs: seq<Chunk>, zero: string, ext: string, after: string)
    requires forall i :: 0 <= i < |cs| ==> Sendable(cs[i])
    requires SizeText(zero, 0) && Extension(ext)
    ensures Chunked(SendChunks(cs, zero + ext + (CRLF + after))) == Ok(Payload(cs))
    decreases |cs|
  {
    if cs == [] {
      ChunkSizeReads(zero, ext, 0);
      FindAfterLine(zero + ext, after);
      ChunkedLast(zero + ext + (CRLF + after), |zero + ext|);
    } else {
      ChunkedReads(cs[1..], zero, ext, after);
      OneChunkReads(cs[0], SendChunks(cs[1..], zero + ext + (CRLF + after)));
    }
  }

  lemma {:induction false} OneChunkReads(c: Chunk, tail: string)
    requires Sendable(c)
    ensures Chunked(c.size + c.ext + (CRLF + (c.data + (CRLF + tail)))) == Onto(c.data, Chunked(tail))
  {
    var line := c.size + c.ext;
    ChunkSizeReads(c.size, c.ext, |c.data|);
    FindAfterLine(line, c.data + (CRLF + tail));
    ChunkAfterLine(line + (CRLF + (c.data + (CRLF + tail))), line, c.data, CRLF, tail);
  }

  // ----- the head of a response

  predicate SameIgnoringCase(a: string, b: string) {
    Lower(a) == Lower(b)
  }

  /** The second word of the status line. */
  function Status(line: string): Result<nat> {
    match SplitOnce(line, ' ')
    case None => Err(InvalidStatus)
    case Some((_, rest)) =>
      match ParseUnsigned(rest[..IndexOf(rest, ' ')], 10, U16_LIMIT)
      case None => Err(InvalidStatus)
      case Some(n) => Ok(n)
  }

  /** Lines with a colon, up to the first empty line. */
  function Headers(lines: seq<string>): seq<Header> {
    if lines == [] || lines[0] == "" then []
    else match SplitOnce(lines[0], ':')
      case None => Headers(lines[1..])
      case Some((name, value)) => [Header(Trim(name), Trim(value))] + Headers(lines[1..])
  }

  predicate SaysChunked(h: Header) {
    SameIgnoringCase(h.name, "transfer-encoding") && SameIgnoringCase(Trim(h.value), "chunked")
  }

  predicate IsChunked(hs: seq<Header>) {
    exists i :: 0 <= i < |hs| && SaysChunked(hs[i])
  }

  /** The value of the first Content-Length header. */
  function LengthValue(hs: seq<Header>): Option<string> {
    if hs == [] then None
    else if SameIgnoringCase(hs[0].name, "content-length") then Some(hs[0].value)
    else LengthValue(hs[1..])
  }

  function Body(hs: seq<Header>, raw: string): Result<string> {
    if IsChunked(hs) then Chunked(raw)
    else match LengthValue(hs)
      case None => Ok(raw)
      case Some(v) =>
        match ParseUnsigned(Trim(v), 10, USIZE_LIMIT)
        case None => Err(InvalidResponse)
        case Some(n) => Ok(raw[..if n <= |raw| then n else |raw|])
  }

  function Parse(raw: string): Result<Response> {
    match Find(raw, BLANK)
    case None => Err(InvalidResponse)
    case Some(sep) =>
      if !ValidUtf8(raw[..sep]) then Err(InvalidResponse)
      else
        var lines := Lines(raw[..sep]);
        match Status(lines[0])
        case Err(e) => Err(e)
        case Ok(status) =>
          var hs := Headers(lines[1..]);
          match Body(hs, raw[sep + 4..])
          case Err(e) => Err(e)
          case Ok(body) => Ok(Response(status, hs, body))
  }

  // ----- writing a response

  predicate LineText(s: string) {
    Ascii(s) && Without(s, '\r')
  }

  /**
   * A line of the head after the first: a header with white space around name and value, or a line without a
   * colon, which says nothing.
   */
  datatype Field =
    | Named(header: Header, pad1: string, pad2: string, pad3: string, pad4: string)
    | Other(text: string)

  predicate Pad(s: string) {
    AllWhite(s) && Without(s, '\r')
  }

  predicate SendableField(f: Field) {
    match f
    case Named(h, p1, p2, p3, p4) =>
      && LineText(h.name) && LineText(h.value) && BlackEdges(h.name) && BlackEdges(h.value) && Without(h.name, ':')
      && Pad(p1) && Pad(p2) && Pad(p3) && Pad(p4)
    case Other(text) => text != "" && LineText(text) && Without(text, ':')
  }

  function FieldWritten(f: Field): string {
    match f
    case Named(h, p1, p2, p3, p4) => p1 + h.name + p2 + ":" + (p3 + h.value + p4)
    case Other(text) => text
  }

  function FieldLines(fs: seq<Field>): seq<string> {
    if fs == [] then [] else [FieldWritten(fs[0])] + FieldLines(fs[1..])
  }

  /** The headers among some fields, in order. */
  function HeadersOf(fs: seq<Field>): seq<Header> {
    if fs == [] then [] else (if fs[0].Named? then [fs[0].header] else []) + HeadersOf(fs[1..])
  }

  predicate SendableFields(fs: seq<Field>) {
    forall i :: 0 <= i < |fs| ==> SendableField(fs[i])
  }

  /** A version word, the status code, and what may follow: nothing, or a space and a reason. */
  datatype StatusLine = StatusLine(version: string, status: nat, reason: Option<string>)

  predicate SendableStatus(s: StatusLine) {
    && LineText(s.version) && Without(s.version, ' ')
    && s.status < U16_LIMIT && (s.reason.Some? ==> LineText(s.reason.value))
  }

  function StatusText(s: StatusLine): string {
    s.version + " " + (Show(s.status, 10) + (match s.reason case None => "" case Some(r) => " " + r))
  }

  /** Lines joined by line ends. */
  function Joined(lines: seq<string>): string
    requires lines != []
  {
    if |lines| == 1 then lines[0] else lines[0] + (CRLF + Joined(lines[1..]))
  }

  function Head(s: StatusLine, fs: seq<Field>): string {
    Joined([StatusText(s)] + FieldLines(fs))
  }

  predicate GoodLines(lines: seq<string>) {
    forall i :: 0 <= i < |lines| ==> lines[i] != "" && LineText(lines[i])
  }

  lemma {:induction false} HeadEnds(lines: seq<string>, after: string)
    requires lines != [] && GoodLines(lines)
    ensures Find(Joined(lines) + (BLANK + after), BLANK) == Some(|Joined(lines)|)
    decreases |lines|
  {
    if |lines| == 1 {
      assert StartsWith(BLANK + after, BLANK);
      FindSkips(lines[0], BLANK + after, BLANK);
    } else {
      var rest := Joined(lines[1..]);
      HeadEnds(lines[1..], after);
      JoinedStart(lines[1..]);
      assert (rest + (BLANK + after))[0] == rest[0];
      LineBefore(lines[0], rest + (BLANK + after));
      Regroup(lines[0], CRLF, rest, BLANK + after);
    }
  }

  lemma {:induction false} LineBefore(line: string, more: string)
    requires LineText(line) && more != "" && more[0] != '\r' && Find(more, BLANK).Some?
    ensures Find(line + (CRLF + more), BLANK) == Some(|line| + 2 + Find(more, BLANK).value)
  {
    FindPastBreak(more);
    FindSkips(line, CRLF + more, BLANK);
  }

  lemma Regroup(a: string, b: string, c: string, d: string)
    ensures a + (b + c) + d == a + (b + (c + d))
  {
  }

  lemma {:induction false} JoinedStart(lines: seq<string>)
    requires lines != [] && GoodLines(lines)
    ensures Joined(lines) != "" && Joined(lines)[0] != '\r' && Joined(lines)[0] == lines[0][0]
  {
  }

  /** A single line end is no blank line. */
  lemma {:induction false} FindPastBreak(more: string)
    requires more != "" && more[0] != '\r' && Find(more, BLANK).Some?
    ensures Find(CRLF + more, BLANK) == Some(2 + Find(more, BLANK).value)
  {
    var s := CRLF + more;
    var t := "\n" + more;
    assert s[2] == more[0] && s[1] == '\n';
    NotPrefix(s, BLANK, 2);
    assert s[1..] == t;
    NotPrefix(t, BLANK, 0);
    assert t[1..] == more;
  }

  lemma {:induction false} FindNoCr(s: string)
    requires Without(s, '\r')
    ensures Find(s, CRLF) == None
    decreases |s|
  {
    if s != [] {
      NotPrefix(s, CRLF, 0);
      FindNoCr(s[1..]);
    }
  }

  lemma {:induction false} LinesOfJoined(lines: seq<string>)
    requires lines != [] && GoodLines(lines)
    ensures Lines(Joined(lines)) == lines
    decreases |lines|
  {
    if |lines| == 1 {
      FindNoCr(lines[0]);
    } else {
      LinesOfJoined(lines[1..]);
      FindAfterLine(lines[0], Joined(lines[1..]));
      assert lines == [lines[0]] + lines[1..];
    }
  }

  lemma {:induction false} JoinedAscii(lines: seq<string>)
    requires lines != [] && GoodLines(lines)
    ensures Ascii(Joined(lines))
    decreases |lines|
  {
    if |lines| > 1 { JoinedAscii(lines[1..]); }
  }

  lemma StatusReads(s: StatusLine)
    requires SendableStatus(s)
    ensures Status(StatusText(s)) == Ok(s.status)
  {
    var code := Show(s.status, 10);
    ParseShow(s.status, 10, U16_LIMIT);
    var tail := match s.reason case None => "" case Some(r) => " " + r;
    SplitOnceReads(s.version, ' ', code + tail);
    WordEnds(code, tail);
  }

  lemma WordEnds(word: string, tail: string)
    requires IsNumeral(word) && (tail == "" || tail[0] == ' ')
    ensures (word + tail)[..IndexOf(word + tail, ' ')] == word
  {
    IndexOfUnique(word + tail, ' ', |word|);
  }

  /** A status line: a word, a space, a decimal code, and nothing or a space and anything more. */
  predicate IsStatus(line: string, version: string, code: string, tail: string, n: nat) {
    Without(version, ' ') && Without(code, ' ') && Decimal(code, n) && n < 65536
    && (tail == "" || tail[0] == ' ') && line == version + " " + code + tail
  }

  /** Every other line is an invalid status. */
  lemma StatusExact(line: string, n: nat)
    ensures Status(line) == Ok(n) <==> exists version, code, tail :: IsStatus(line, version, code, tail, n)
    ensures Status(line).Ok? || Status(line) == Err(InvalidStatus)
  {
    var i := IndexOf(line, ' ');
    if i < |line| {
      var rest := line[i + 1..];
      var k := IndexOf(rest, ' ');
      DecimalIff(rest[..k], U16_LIMIT, n);
      if Status(line) == Ok(n) {
        assert line == line[..i] + " " + rest[..k] + rest[k..];
        assert IsStatus(line, line[..i], rest[..k], rest[k..], n);
      }
    }
    forall version, code, tail | IsStatus(line, version, code, tail, n) ensures Status(line) == Ok(n) {
      StatusOf(version, code, tail, n);
    }
  }

  lemma StatusOf(version: string, code: string, tail: string, n: nat)
    requires IsStatus(version + " " + code + tail, version, code, tail, n)
    ensures Status(version + " " + code + tail) == Ok(n)
  {
    var rest := code + tail;
    assert version + " " + code + tail == version + [' '] + rest;
    SplitOnceReads(version, ' ', rest);
    IndexOfUnique(rest, ' ', |code|);
    assert rest[..|code|] == code;
    DecimalIff(code, U16_LIMIT, n);
  }

  lemma StatusGood(s: StatusLine)
    requires SendableStatus(s)
    ensures StatusText(s) != "" && LineText(StatusText(s))
  {
    ShowNumeral(s.status, 10);
  }

  lemma FieldReads(f: Field)
    requires SendableField(f) && f.Named?
    ensures SplitOnce(FieldWritten(f), ':') == Some((f.pad1 + f.header.name + f.pad2, f.pad3 + f.header.value + f.pad4))
    ensures Trim(f.pad1 + f.header.name + f.pad2) == f.header.name
    ensures Trim(f.pad3 + f.header.value + f.pad4) == f.header.value
  {
    SplitOnceReads(f.pad1 + f.header.name + f.pad2, ':', f.pad3 + f.header.value + f.pad4);
    TrimBoth(f.pad1, f.header.name, f.pad2);
    TrimBoth(f.pad3, f.header.value, f.pad4);
  }

  lemma FieldGood(f: Field)
    requires SendableField(f)
    ensures FieldWritten(f) != "" && LineText(FieldWritten(f))
  {
    if f.Named? {
      PadIsLineText(f.pad1);
      PadIsLineText(f.pad2);
      PadIsLineText(f.pad3);
      PadIsLineText(f.pad4);
    }
  }

  lemma PadIsLineText(s: string)
    requires Pad(s)
    ensures LineText(s)
  {
  }

  lemma {:induction false} FieldLinesGood(fs: seq<Field>)
    requires SendableFields(fs)
    ensures GoodLines(FieldLines(fs))
  {
    if fs != [] {
      FieldLinesGood(fs[1..]);
      FieldGood(fs[0]);
    }
  }

  lemma {:induction false} HeadersOnce(f: Field, rest: seq<string>)
    requires SendableField(f)
    ensures Headers([FieldWritten(f)] + rest) == (if f.Named? then [f.header] else []) + Headers(rest)
  {
    FieldGood(f);
    assert ([FieldWritten(f)] + rest)[1..] == rest;
    if f.Named? {
      FieldReads(f);
    } else {
      IndexOfUnique(f.text, ':', |f.text|);
      assert [] + Headers(rest) == Headers(rest);
    }
  }

  /** Header lines give their names and values back, trimmed, in order; other lines are passed over. */
  lemma {:induction false} HeadersRead(fs: seq<Field>)
    requires SendableFields(fs)
    ensures Headers(FieldLines(fs)) == HeadersOf(fs)
  {
    if fs != [] {
      HeadersRead(fs[1..]);
      HeadersOnce(fs[0], FieldLines(fs[1..]));
    }
  }

  /** The head of a response is read back, and the body is whatever the headers make of the rest. */
  lemma {:induction false} HeadReads(s: StatusLine, fs: seq<Field>, raw: string)
    requires SendableStatus(s) && SendableFields(fs)
    ensures Parse(Head(s, fs) + (BLANK + raw)) == match Body(HeadersOf(fs), raw)
      case Err(e) => Err(e)
      case Ok(body) => Ok(Response(s.status, HeadersOf(fs), body))
  {
    var lines := [StatusText(s)] + FieldLines(fs);
    StatusGood(s);
    FieldLinesGood(fs);
    HeadEnds(lines, raw);
    LinesOfJoined(lines);
    JoinedAscii(lines);
    AsciiIsUtf8(Joined(lines));
    assert Status(lines[0]) == Ok(s.status) by { StatusReads(s); }
    assert Headers(lines[1..]) == HeadersOf(fs) by {
      HeadersRead(fs);
      assert lines[1..] == FieldLines(fs);
    }
    ParseFrom(Joined(lines), raw, lines, s.status, HeadersOf(fs));
  }

  lemma {:induction false} ParseFrom(head: string, raw: string, lines: seq<string>, status: nat, hs: seq<Header>)
    requires Find(head + (BLANK + raw), BLANK) == Some(|head|) && ValidUtf8(head) && Lines(head) == lines
    requires Status(lines[0]) == Ok(status) && Headers(lines[1..]) == hs
    ensures Parse(head + (BLANK + raw)) == match Body(hs, raw)
      case Err(e) => Err(e)
      case Ok(body) => Ok(Response(status, hs, body))
  {
    var all := head + (BLANK + raw);
    assert all[..|head|] == head;
    assert all[|head| + 4..] == raw;
  }

  /** Without a blank line, or with a head that is no UTF-8, there is no response. */
  lemma HeadRefused(raw: string)
    requires forall i: nat :: FirstAt(raw, "\r\n\r\n", i) ==> !exists cs :: Scalars(cs) && EncodedAll(cs) == raw[..i]
    ensures Parse(raw) == Err(InvalidResponse)
  {
    FindFirst(raw, BLANK);
    match Find(raw, BLANK)
    case None =>
    case Some(i) => Utf8Exact(raw[..i]);
  }

  // How the body is framed, names and values in any case, letter by letter.

  predicate ChunkedHeader(h: Header) {
    Spells(h.name, "transfer-encoding") && Spells(Trim(h.value), "chunked")
  }

  predicate LengthHeader(h: Header) {
    Spells(h.name, "content-length")
  }

  lemma NamesIgnoreCase(h: Header)
    ensures SaysChunked(h) <==> ChunkedHeader(h)
    ensures SameIgnoringCase(h.name, "content-length") <==> LengthHeader(h)
  {
    LowerSpells(h.name, "transfer-encoding");
    LowerSpells(h.name, "content-length");
    LowerSpells(Trim(h.value), "chunked");
  }

  lemma IsChunkedIff(hs: seq<Header>)
    ensures IsChunked(hs) <==> exists i :: 0 <= i < |hs| && ChunkedHeader(hs[i])
  {
    forall i | 0 <= i < |hs| ensures SaysChunked(hs[i]) <==> ChunkedHeader(hs[i]) {
      NamesIgnoreCase(hs[i]);
    }
  }

  /** i is the first header that gives a length, or there is none. */
  predicate FirstLength(hs: seq<Header>, i: nat) {
    && i <= |hs| && (forall j :: 0 <= j < i ==> !LengthHeader(hs[j])) && (i < |hs| ==> LengthHeader(hs[i]))
  }

  lemma {:induction false} LengthIs(hs: seq<Header>, i: nat)
    requires FirstLength(hs, i)
    ensures LengthValue(hs) == if i < |hs| then Some(hs[i].value) else None
    decreases i
  {
    if hs != [] { NamesIgnoreCase(hs[0]); }
    if i > 0 { LengthIs(hs[1..], i - 1); }
  }

  /** With a header "transfer-encoding: chunked" the rest is decoded as chunks. */
  lemma {:induction false} BodyByChunks(hs: seq<Header>, i: nat, raw: string)
    requires i < |hs| && ChunkedHeader(hs[i])
    ensures Body(hs, raw) == Chunked(raw)
  {
    IsChunkedIff(hs);
  }

  /** Without one, the first "content-length" header says how many bytes, of those that are there. */
  lemma {:induction false} BodyByLength(hs: seq<Header>, i: nat, raw: string, n: nat)
    requires (forall j :: 0 <= j < |hs| ==> !ChunkedHeader(hs[j])) && FirstLength(hs, i) && i < |hs|
    requires n < USIZE_LIMIT && hs[i].value != "" && Denotes(hs[i].value, 10, n)
    ensures Body(hs, raw) == Ok(if n <= |raw| then raw[..n] else raw)
  {
    IsChunkedIff(hs);
    LengthIs(hs, i);
    LengthParses(hs[i].value, n);
    assert raw[..|raw|] == raw;
  }

  lemma {:induction false} LengthParses(s: string, n: nat)
    requires s != "" && Denotes(s, 10, n) && n < USIZE_LIMIT
    ensures ParseUnsigned(Trim(s), 10, USIZE_LIMIT) == Some(n)
  {
    DecimalDigits(s, n);
    TrimBoth("", s, "");
    assert "" + s + "" == s;
    NumeralParses(s, 10, USIZE_LIMIT, n);
  }

  /** A first length that is no number makes the response invalid. */
  lemma BadLength(hs: seq<Header>, i: nat, raw: string)
    requires (forall j :: 0 <= j < |hs| ==> !ChunkedHeader(hs[j])) && FirstLength(hs, i) && i < |hs|
    requires ParseUnsigned(Trim(hs[i].value), 10, USIZE_LIMIT).None?
    ensures Body(hs, raw) == Err(InvalidResponse)
  {
    IsChunkedIff(hs);
    LengthIs(hs, i);
  }

  /** With neither header the body is the rest. */
  lemma BodyByClose(hs: seq<Header>, raw: string)
    requires forall j :: 0 <= j < |hs| ==> !ChunkedHeader(hs[j]) && !LengthHeader(hs[j])
    ensures Body(hs, raw) == Ok(raw)
  {
    IsChunkedIff(hs);
    LengthIs(hs, |hs|);
  }

  /** How a body is put on the wire, and what follows it there. */
  datatype Framing =
    | ByChunks(at: nat, chunks: seq<Chunk>, zero: string, ext: string, after: string)
    | ByLength(at: nat, after: string)
    | ByClose

  predicate Frames(f: Framing, hs: seq<Header>, body: string, wire: string) {
    match f
    case ByChunks(i, cs, zero, ext, after) =>
      && i < |hs| && Spells(hs[i].name, "transfer-encoding") && Spells(hs[i].value, "chunked")
      && (forall i :: 0 <= i < |cs| ==> Sendable(cs[i])) && Payload(cs) == body
      && SizeText(zero, 0) && Extension(ext) && wire == SendChunks(cs, zero + ext + (CRLF + after))
    case ByLength(i, after) =>
      && (forall j :: 0 <= j < |hs| ==> !ChunkedHeader(hs[j])) && FirstLength(hs, i) && i < |hs|
      && hs[i].value != "" && Denotes(hs[i].value, 10, |body|) && |body| < USIZE_LIMIT && wire == body + after
    case ByClose =>
      && (forall j :: 0 <= j < |hs| ==> !ChunkedHeader(hs[j]) && !LengthHeader(hs[j])) && wire == body
  }

  lemma BodyReads(f: Framing, hs: seq<Header>, body: string, wire: string)
    requires Frames(f, hs, body, wire)
    ensures Body(hs, wire) == Ok(body)
  {
    match f
    case ByChunks(i, cs, zero, ext, after) =>
      ChunkedWord(hs[i].value);
      BodyByChunks(hs, i, wire);
      ChunkedReads(cs, zero, ext, after);
    case ByLength(i, after) =>
      BodyByLength(hs, i, wire, |body|);
    case ByClose =>
      BodyByClose(hs, wire);
  }

  lemma ChunkedWord(value: string)
    requires Spells(value, "chunked")
    ensures Trim(value) == value
  {
    TrimBoth("", value, "");
    assert "" + value + "" == value;
  }

  /** Round trip: status, headers and body are recovered under every framing, with anything after a framed body. */
  lemma {:induction false} ResponseReads(s: StatusLine, fs: seq<Field>, f: Framing, body: string, wire: string)
    requires SendableStatus(s) && SendableFields(fs)
    requires Frames(f, HeadersOf(fs), body, wire)
    ensures Parse(Head(s, fs) + (BLANK + wire)) == Ok(Response(s.status, HeadersOf(fs), body))
  {
    HeadReads(s, fs, wire);
    BodyReads(f, HeadersOf(fs), body, wire);
  }

  // ----- the loops

  method ParseChunked(data: string) returns (r: Result<string>)
    ensures r == Chunked(data)
  {
    var rest := data;
    var result := "";
    OntoNothing(Chunked(data));
    while true
      invariant Chunked(data) == Onto(result, Chunked(rest))
      decreases |rest|
    {
      var round := ReadChunk(rest);
      match round {
        case Bad =>
          return Err(InvalidChunk);
        case Last =>
          assert result + "" == result;
          return Ok(result);
        case More(chunk, after) =>
          OntoTwice(result, chunk, Chunked(after));
          result := result + chunk;
          rest := after;
      }
    }
  }

  /** The body of the loop: a size line, the chunk, and the two bytes after it. */
  method ReadChunk(data: string) returns (r: Round)
    ensures r == RoundOf(data)
  {
    var crlf := Find(data, CRLF);
    if crlf.None? {
      return Bad;
    }
    var size := ChunkSize(data[..crlf.value]);
    if size.None? {
      return Bad;
    }
    var rest := data[crlf.value + 2..];
    if size.value == 0 {
      return Last;
    }
    if size.value + 2 >= USIZE_LIMIT || |rest| < size.value + 2 {
      return Bad;
    }
    return More(rest[..size.value], rest[size.value + 2..]);
  }

  lemma OntoNothing(r: Result<string>)
    ensures Onto("", r) == r
  {
    if r.Ok? { assert "" + r.value == r.value; }
  }

  /** The loop over the header lines. */
  method ParseHeaders(lines: seq<string>) returns (headers: seq<Header>)
    ensures headers == Headers(lines)
  {
    headers := [];
    var i := 0;
    assert lines[0..] == lines;
    while i < |lines| && lines[i] != ""
      invariant i <= |lines|
      invariant Headers(lines) == headers + Headers(lines[i..])
    {
      assert lines[i..][1..] == lines[i + 1..];
      var parts := SplitOnce(lines[i], ':');
      if parts.Some? {
        var h := Header(Trim(parts.value.0), Trim(parts.value.1));
        Associate(headers, [h], Headers(lines[i + 1..]));
        headers := headers + [h];
      }
      i := i + 1;
    }
    assert headers + [] == headers;
  }

  method ParseResponse(raw: string) returns (r: Result<Response>)
    ensures r == Parse(raw)
  {
    var found := Find(raw, BLANK);
    if found.None? {
      return Err(InvalidResponse);
    }
    var sep := found.value;
    var bodyRaw := raw[sep + 4..];
    if !ValidUtf8(raw[..sep]) {
      return Err(InvalidResponse);
    }
    var lines := Lines(raw[..sep]);
    var status := Status(lines[0]);
    if status.Err? {
      return Err(status.error);
    }
    var headers := ParseHeaders(lines[1..]);
    if IsChunked(headers) {
      var body := ParseChunked(bodyRaw);
      if body.Err? {
        return Err(body.error);
      }
      return Ok(Response(status.value, headers, body.value));
    }
    var body := Body(headers, bodyRaw);
    if body.Err? {
      return Err(body.error);
    }
    return Ok(Response(status.value, headers, body.value));
  }
}
