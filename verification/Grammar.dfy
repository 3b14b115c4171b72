/** Messages written out from their parts, and the proof that the parser reads those parts back. */
module Grammar {
  import opened ByteStrings
  import opened PyInt
  import opened HeaderMap
  import opened ParserSpec
  import opened Segmentation
  import opened Framing

  /** A line that CRLF can terminate. */
  predicate IsLine(line: Bytes) {
    line != [] && Find(line, CRLF) == -1
  }

  /** Lines each ended by CRLF, then the empty line: a header section or a trailer section. */
  function Section(lines: seq<Bytes>): (r: Bytes) {
    if lines == [] then CRLF else lines[0] + CRLF + Section(lines[1..])
  }

  lemma LineNotBlank(line: Bytes, t: Bytes)
    requires IsLine(line)
    ensures !(CRLF <= line + CRLF + t)
    ensures !(CRLF <= line + CRLF)
  {
    FindLineEnd(line, t);
    var s := line + CRLF + t;
    assert s[0..2] == s[..2];
    assert s == (line + CRLF) + t;
  }

  lemma BlankIsLineEnd(s: Bytes, j: int)
    ensures At(s, BLANK, j) ==> At(s, CRLF, j) && At(s, CRLF, j + 2)
  {
    if 0 <= j <= |s| - 4 {
      assert s[j..j + 4][..2] == s[j..j + 2] && s[j..j + 4][2..] == s[j + 2..j + 4];
    }
  }

  lemma BlankFromLineEnds(s: Bytes, j: int)
    requires At(s, CRLF, j) && At(s, CRLF, j + 2)
    ensures At(s, BLANK, j)
  {
    assert s[j..j + 4] == s[j..j + 2] + s[j + 2..j + 4];
  }

  lemma NoBlankInsideLine(line: Bytes, tail: Bytes, j: nat)
    requires IsLine(line)
    requires j < |line| || j == |line| + 1 || (j == |line| && !(CRLF <= tail))
    ensures !At(line + CRLF + tail, BLANK, j)
  {
    var s := line + CRLF + tail;
    FindLineEnd(line, tail);
    BlankIsLineEnd(s, j);
    if j == |line| && |tail| >= 2 {
      assert s[j + 2..j + 4] == tail[..2];
    } else if j == |line| + 1 {
      assert s[j] == '\n';
    }
  }

  lemma FindIs(s: Bytes, p: Bytes, i: nat)
    requires At(s, p, i) && forall j: nat :: j < i ==> !At(s, p, j)
    ensures Find(s, p) == i
  {
  }

  lemma BlankHere(line: Bytes, tail: Bytes)
    requires IsLine(line) && CRLF <= tail
    ensures Find(line + CRLF + tail, BLANK) == |line|
  {
    var s, n := line + CRLF + tail, |line| + 2;
    assert s[n - 2..n] == CRLF && s[n..n + 2] == tail[..2];
    BlankFromLineEnds(s, |line|);
    hide At;
    forall j: nat | j < |line| ensures !At(s, BLANK, j) {
      NoBlankInsideLine(line, tail, j);
    }
    FindIs(s, BLANK, |line|);
  }

  lemma BlankFurther(line: Bytes, tail: Bytes)
    requires IsLine(line) && !(CRLF <= tail) && Find(tail, BLANK) != -1
    ensures Find(line + CRLF + tail, BLANK) == |line| + 2 + Find(tail, BLANK)
  {
    hide At;
    var s, head, i := line + CRLF + tail, line + CRLF, Find(tail, BLANK);
    ShiftBlank(head, tail);
    forall j: nat | j < |head| + i ensures !At(s, BLANK, j) {
      if j < |head| {
        NoBlankInsideLine(line, tail, j);
      }
    }
    assert At(s, BLANK, i + |head|);
    FindIs(s, BLANK, |head| + i);
  }

  lemma ShiftBlank(head: Bytes, tail: Bytes)
    ensures forall j :: |head| <= j ==> At(head + tail, BLANK, j) == At(tail, BLANK, j - |head|)
    ensures forall j :: 0 <= j ==> At(tail, BLANK, j) == At(head + tail, BLANK, j + |head|)
  {
    var s, n := head + tail, |head|;
    forall j | n <= j <= |s| - 4 ensures At(s, BLANK, j) == At(tail, BLANK, j - n) {
      assert s[j..j + 4] == tail[j - n..j - n + 4];
    }
    forall j | 0 <= j ensures At(tail, BLANK, j) == At(s, BLANK, j + n) {
      assert At(s, BLANK, j + n) == At(tail, BLANK, j + n - n);
    }
  }

  /** Where the blank line of a section is. */
  lemma {:induction false} SectionEnd(lines: seq<Bytes>, t: Bytes)
    requires lines != [] && forall l :: l in lines ==> IsLine(l)
    ensures |Section(lines)| >= 4
    ensures Find(Section(lines) + t, BLANK) == |Section(lines)| - 4
    ensures !(CRLF <= Section(lines) + t)
  {
    var line, tail := lines[0], Section(lines[1..]) + t;
    assert Section(lines) + t == line + CRLF + tail;
    LineNotBlank(line, tail);
    if |lines| > 1 {
      SectionEnd(lines[1..], t);
    }
    if CRLF <= tail {
      BlankHere(line, tail);
    } else {
      BlankFurther(line, tail);
    }
  }

  /** A section without its final blank line splits back into its lines. */
  lemma {:induction false} SectionSplits(lines: seq<Bytes>)
    requires lines != [] && forall l :: l in lines ==> IsLine(l)
    ensures |Section(lines)| >= 4
    ensures SplitLines(Section(lines)[..|Section(lines)| - 4]) == lines
  {
    hide Find, SplitLines;
    var line, tail := lines[0], Section(lines[1..]);
    assert IsLine(line);
    if |lines| == 1 {
      assert tail == CRLF;
      assert Section(lines)[..|line|] == line;
      SplitOne(line);
    } else {
      SectionSplits(lines[1..]);
      var rest := tail[..|tail| - 4];
      assert Section(lines)[..|Section(lines)| - 4] == line + CRLF + rest;
      SplitFirst(line, rest);
    }
  }

  lemma SplitOne(line: Bytes)
    requires IsLine(line)
    ensures SplitLines(line) == [line]
  {
  }

  lemma SplitFirst(line: Bytes, rest: Bytes)
    requires IsLine(line)
    ensures SplitLines(line + CRLF + rest) == [line] + SplitLines(rest)
  {
    hide At;
    var text := line + CRLF + rest;
    FindLineEnd(line, rest);
    assert text[..|line|] == line && text[|line| + 2..] == rest;
  }

  // The status line.

  function DigitChar(n: nat): Byte
    requires n < 10
  {
    (('0' as int) + n) as char
  }

  function ThreeDigits(code: nat): (r: Bytes)
    requires code < 1000
    ensures |r| == 3
  {
    [DigitChar(code / 100), DigitChar(code / 10 % 10), DigitChar(code % 10)]
  }

  predicate IsVersion(v: Bytes) {
    |v| == 8 && v[..5] == "HTTP/" && Digit(v[5]) && v[6] == '.' && Digit(v[7])
  }

  /** What may follow the status code: a space and the reason, or nothing, and one stray LF at the very end. */
  predicate SpellsReason(tail: Bytes, reason: Bytes) {
    && '\n' !in reason
    && (tail == [' '] + reason || tail == [' '] + reason + ['\n'] || (reason == [] && (tail == [] || tail == ['\n'])))
  }

  predicate SpellsStatus(line: Bytes, m: StatusLine) {
    && IsVersion(m.version) && m.code < 1000 && |line| >= 12
    && line[..12] == m.version + [' '] + ThreeDigits(m.code) && SpellsReason(line[12..], m.reason)
  }

  lemma ThreeDigitsValue(a: Byte, b: Byte, c: Byte)
    requires Digit(a) && Digit(b) && Digit(c)
    ensures Value([a, b, c], 10) == 100 * DigitValue(a) + 10 * DigitValue(b) + DigitValue(c)
  {
    var s := [a, b, c];
    assert s[..2] == [a, b] && [a, b][..1] == [a] && [a][..0] == [];
    assert Value([a], 10) == DigitValue(a);
    assert Value([a, b], 10) == 10 * DigitValue(a) + DigitValue(b);
  }

  lemma SplitDigits(a: nat, b: nat, c: nat)
    requires a < 10 && b < 10 && c < 10
    ensures var n := 100 * a + 10 * b + c; n < 1000 && n / 100 == a && n / 10 % 10 == b && n % 10 == c
  {
  }

  lemma JoinDigits(n: nat)
    ensures 100 * (n / 100) + 10 * (n / 10 % 10) + n % 10 == n
  {
    var tens := n / 10;
    assert n == 10 * tens + n % 10;
    assert tens == 10 * (tens / 10) + tens % 10;
    assert tens / 10 == n / 100;
  }

  lemma ThreeDigitsExactly(t: Bytes, code: nat)
    requires |t| == 3
    ensures Digit(t[0]) && Digit(t[1]) && Digit(t[2]) && Value(t, 10) == code <==> code < 1000 && t == ThreeDigits(code)
  {
    hide Value;
    assert t == [t[0], t[1], t[2]];
    if Digit(t[0]) && Digit(t[1]) && Digit(t[2]) {
      var a, b, c := DigitValue(t[0]), DigitValue(t[1]), DigitValue(t[2]);
      ThreeDigitsValue(t[0], t[1], t[2]);
      SplitDigits(a, b, c);
      assert t == ThreeDigits(100 * a + 10 * b + c);
    }
    if code < 1000 && t == ThreeDigits(code) {
      assert Digit(t[0]) && Digit(t[1]) && Digit(t[2]);
      JoinDigits(code);
    }
  }

  lemma LineFeedAt(s: Bytes)
    ensures Find(s, ['\n']) == -1 <==> '\n' !in s
    ensures Find(s, ['\n']) != -1 ==> var i := Find(s, ['\n']); i < |s| && s[i] == '\n' && '\n' !in s[..i]
  {
    forall j | 0 <= j < |s| ensures At(s, ['\n'], j) <==> s[j] == '\n' {
      assert s[j..j + 1] == [s[j]];
    }
  }

  lemma ReasonExactly(tail: Bytes, reason: Bytes)
    ensures MatchReason(tail) == Some(reason) <==> SpellsReason(tail, reason)
  {
    hide At, Find;
    LineFeedAt(tail);
    if tail != [] && tail[0] == ' ' {
      var lf, n := Find(tail, ['\n']), |tail| - 1;
      assert tail == [' '] + tail[1..];
      if lf == n {
        assert tail == [' '] + tail[1..n] + ['\n'];
        assert tail[..n][1..] == tail[1..n];
      }
      if tail == [' '] + reason + ['\n'] && '\n' !in reason {
        assert tail[|reason| + 1] == '\n' && tail[1..n] == reason;
        assert forall j :: 1 <= j < n ==> tail[j] == reason[j - 1];
      }
    }
  }

  /**
   * The status lines the parser accepts, and what it reads from them: those of section 4 of RFC 9112, and also
   * a bare code, one stray final LF, and control characters other than LF in the reason.
   */
  lemma StatusLineExactly(line: Bytes, m: StatusLine)
    ensures MatchStatusLine(line) == Some(m) <==> SpellsStatus(line, m)
  {
    hide MatchReason, SpellsReason, Value, ThreeDigits;
    if |line| >= 12 {
      var version, code := line[..8], line[9..12];
      ReasonExactly(line[12..], m.reason);
      ThreeDigitsExactly(code, m.code);
      assert line[..12] == version + [line[8]] + code;
      assert version[..5] == line[..5];
      if IsVersion(m.version) && m.code < 1000 && line[..12] == m.version + [' '] + ThreeDigits(m.code) {
        assert line[..12][..8] == m.version && line[..12][9..] == ThreeDigits(m.code) && line[..12][8] == ' ';
        assert version == line[..12][..8] && code == line[..12][9..];
      }
    }
  }

  // The head of a response.

  function RenderHead(status: Bytes, lines: seq<Bytes>): Bytes {
    status + CRLF + Section(lines)
  }

  function HeadOf(m: StatusLine, store: Store, rest: Bytes): State {
    INIT.(buf := rest, version := m.version, code := m.code, reason := m.reason, headers := store, phase := Head)
  }

  /** Any status line and header lines the parser accepts are read back, and what follows is left for the body. */
  lemma HeadReadsBack(status: Bytes, lines: seq<Bytes>, rest: Bytes)
    requires Find(status, CRLF) == -1 && MatchStatusLine(status).Some?
    requires forall l :: l in lines ==> IsLine(l)
    requires HeaderLines([], lines).Parsed?
    ensures AfterHead(RenderHead(status, lines) + rest)
         == match ResolveFraming(HeadOf(MatchStatusLine(status).value, HeaderLines([], lines).store, rest))
            case Failed(e) => Failed(e)
            case Ok(s) => Ok(s.(phase := Body))
  {
    hide MatchStatusLine, HeaderLines, ResolveFraming, HeaderBlock, SplitLines, Section;
    var d := RenderHead(status, lines) + rest;
    var section := Section(lines) + rest;
    assert [] + d == d;
    assert d == status + CRLF + section;
    FindLineEnd(status, section);
    assert d[..|status|] == status && d[|status| + 2..] == section;
    BlockReadsBack(lines, rest);
  }

  lemma BlockReadsBack(lines: seq<Bytes>, rest: Bytes)
    requires forall l :: l in lines ==> IsLine(l)
    ensures HeaderBlock(Section(lines) + rest).Block?
    ensures HeaderBlock(Section(lines) + rest).rest == rest
    ensures HeaderLines([], SplitLines(HeaderBlock(Section(lines) + rest).text)) == HeaderLines([], lines)
  {
    hide HeaderLine;
    var section := Section(lines) + rest;
    if lines == [] {
      assert section[2..] == rest;
      assert CRLF <= section;
      assert SplitLines([]) == [[]];
      assert HeaderLines([], [[]]) == Parsed([]) by { EmptyLine([]); }
    } else {
      SectionEnd(lines, rest);
      SectionSplits(lines);
      var end := |Section(lines)| - 4;
      assert section[..end] == Section(lines)[..end];
      assert section[end + 4..] == rest;
    }
  }

  lemma EmptyLine(store: Store)
    ensures HeaderLines(store, [[]]) == Parsed(store)
  {
    assert HeaderLine(store, []) == Parsed(store);
    var raws: seq<Bytes> := [[]];
    assert raws[1..] == [];
  }

  // Chunked bodies, as in section 7.1 of RFC 9112.

  datatype Chunk = Chunk(size: Bytes, ext: Bytes, data: Bytes)

  predicate Blank(c: Byte) {
    c == ' ' || c == '\t'
  }

  /** A token character, section 5.6.2 of RFC 9110. */
  predicate TChar(c: Byte) {
    var n := c as int;
    || n == 33 || 35 <= n <= 39 || n == 42 || n == 43 || n == 45 || n == 46
    || 48 <= n <= 57 || 65 <= n <= 90 || 94 <= n <= 122 || n == 124 || n == 126
  }

  predicate IsToken(s: Bytes) {
    s != [] && forall i :: 0 <= i < |s| ==> TChar(s[i])
  }

  /** Chunk extensions: nothing, or a semicolon after optional blanks and then anything but CRLF. */
  predicate IsExt(ext: Bytes) {
    && Find(ext, CRLF) == -1
    && var semi := Find(ext, [';']);
       forall i :: 0 <= i < (if semi == -1 then |ext| else semi) ==> Blank(ext[i])
  }

  predicate IsChunk(c: Chunk) {
    AllDigits(c.size, 16) && Value(c.size, 16) == |c.data| > 0 && IsExt(c.ext)
  }

  function RenderChunk(c: Chunk): Bytes {
    c.size + c.ext + CRLF + c.data + CRLF
  }

  function RenderChunks(chunks: seq<Chunk>): Bytes {
    if chunks == [] then [] else RenderChunk(chunks[0]) + RenderChunks(chunks[1..])
  }

  function Data(chunks: seq<Chunk>): Bytes {
    if chunks == [] then [] else chunks[0].data + Data(chunks[1..])
  }

  /** The chunks, the last chunk (any spelling of zero) with its extensions, and the trailer section. */
  function RenderBody(chunks: seq<Chunk>, zero: Bytes, ext: Bytes, trailers: seq<Bytes>): Bytes {
    RenderChunks(chunks) + (zero + ext + CRLF) + Section(trailers)
  }

  lemma {:induction false} RStripBlanks(s: Bytes, blanks: Bytes)
    requires s != [] && !AsciiSpace(s[|s| - 1])
    requires forall i :: 0 <= i < |blanks| ==> Blank(blanks[i])
    ensures RStrip(s + blanks, AsciiSpace) == s
  {
    var t := s + blanks;
    if blanks != [] {
      assert t[|t| - 1] == blanks[|blanks| - 1];
      assert t[..|t| - 1] == s + blanks[..|blanks| - 1];
      RStripBlanks(s, blanks[..|blanks| - 1]);
    } else {
      assert t == s;
    }
  }

  lemma HexDigitBytes(size: Bytes, i: nat)
    requires AllDigits(size, 16) && i < |size|
    ensures size[i] != ';' && size[i] != '\r' && !AsciiSpace(size[i])
  {
    assert DigitValue(size[i]) < 16;
  }

  /** The size line yields its size, whatever blanks and extensions follow it. */
  lemma SizeLine(size: Bytes, ext: Bytes)
    requires AllDigits(size, 16) && IsExt(ext)
    ensures Find(size + ext, CRLF) == -1
    ensures ParseInt(SizeToken(size + ext), 16) == Some(Value(size, 16))
  {
    hide Value, Numeral;
    forall i: nat | i < |size| ensures size[i] != ';' && size[i] != '\r' && !AsciiSpace(size[i]) {
      HexDigitBytes(size, i);
    }
    SizeLineEnds(size, ext);
    SizeTokenIs(size, ext);
    ParseDigits(size, 16);
  }

  lemma SizeLineEnds(size: Bytes, ext: Bytes)
    requires forall i: nat :: i < |size| ==> size[i] != '\r'
    requires Find(ext, CRLF) == -1
    ensures Find(size + ext, CRLF) == -1
  {
    var line := size + ext;
    forall j | 0 <= j ensures !At(line, CRLF, j) {
      if j < |size| {
        assert line[j] == size[j] != '\r';
        assert j + 2 <= |line| ==> line[j..j + 2][0] == line[j];
      } else if j + 2 <= |line| {
        assert line[j..j + 2] == ext[j - |size|..j - |size| + 2];
        assert !At(ext, CRLF, j - |size|);
      }
    }
  }

  lemma SemicolonAfter(size: Bytes, ext: Bytes)
    requires forall i: nat :: i < |size| ==> size[i] != ';'
    ensures Find(size + ext, [';']) == if Find(ext, [';']) == -1 then -1 else |size| + Find(ext, [';'])
  {
    var line, semi := size + ext, Find(ext, [';']);
    forall j | 0 <= j < |line| ensures At(line, [';'], j) <==> line[j] == ';' {
      assert line[j..j + 1] == [line[j]];
    }
    forall j | 0 <= j < |ext| ensures At(ext, [';'], j) <==> ext[j] == ';' {
      assert ext[j..j + 1] == [ext[j]];
    }
    if semi != -1 {
      FindIs(line, [';'], |size| + semi);
    }
  }

  lemma SizeTokenIs(size: Bytes, ext: Bytes)
    requires size != [] && IsExt(ext)
    requires forall i: nat :: i < |size| ==> size[i] != ';' && !AsciiSpace(size[i])
    ensures SizeToken(size + ext) == size
  {
    hide At, Find;
    var line, semi := size + ext, Find(ext, [';']);
    SemicolonAfter(size, ext);
    var blanks := if semi == -1 then ext else ext[..semi];
    if semi != -1 {
      assert line[..|size| + semi] == size + blanks;
    }
    assert LStrip(size + blanks, AsciiSpace) == size + blanks;
    RStripBlanks(size, blanks);
  }

  /** In the state of a chunked body that is about to read a size line. */
  predicate BeforeSize(s: State) {
    !s.eof && s.phase == Body && s.chunked && s.awaitingSize && !s.inTrailers && s.chunkRemaining == 0
  }

  lemma SizeLineTurn(s: State, size: Bytes, ext: Bytes, tail: Bytes)
    requires BeforeSize(s) && AllDigits(size, 16) && IsExt(ext) && s.buf == size + ext + CRLF + tail
    ensures SizeTurn(s) ==
      if Value(size, 16) == 0 then Next(s.(buf := tail, inTrailers := true))
      else DataTurn(s.(buf := tail, chunkRemaining := Value(size, 16), awaitingSize := false))
  {
    hide At, AllDigits, IsExt, ParseInt, SizeToken, DataTurn;
    SizeLine(size, ext);
    var line := size + ext;
    FindLineEnd(line, tail);
    assert s.buf[..|line|] == line && s.buf[|line| + 2..] == tail;
  }

  lemma DataChunkTurn(s: State, data: Bytes, tail: Bytes)
    requires s.chunkRemaining == |data| > 0 && s.buf == data + CRLF + tail
    ensures DataTurn(s) == Next(s.(buf := tail, body := s.body + data, chunkRemaining := 0, awaitingSize := true))
  {
    assert s.buf[..|data|] == data && s.buf[|data|..] == CRLF + tail;
    assert (CRLF + tail)[2..] == tail;
    assert CRLF <= CRLF + tail;
  }

  lemma ChunkTurnReads(codec: Codec, s: State, c: Chunk, tail: Bytes)
    requires BeforeSize(s) && IsChunk(c) && s.buf == RenderChunk(c) + tail
    ensures ChunkTurn(codec, s) == Next(s.(buf := tail, body := s.body + c.data))
  {
    hide AllDigits, IsExt, SizeTurn, DataTurn;
    var after := c.data + CRLF + tail;
    assert s.buf == c.size + c.ext + CRLF + after;
    SizeLineTurn(s, c.size, c.ext, after);
    DataChunkTurn(s.(buf := after, chunkRemaining := Value(c.size, 16), awaitingSize := false), c.data, tail);
  }

  lemma TrailerReads(codec: Codec, s: State, trailers: seq<Bytes>, rest: Bytes)
    requires s.inTrailers && s.buf == Section(trailers) + rest
    requires forall l :: l in trailers ==> IsLine(l)
    ensures ChunkTurn(codec, s) == Stop(Finalize(codec, s.(buf := rest)))
  {
    hide Finalize;
    if trailers == [] {
      assert s.buf[2..] == rest && CRLF <= s.buf;
    } else {
      SectionEnd(trailers, rest);
      assert s.buf[|Section(trailers)|..] == rest;
    }
  }

  /**
   * The decoder inverts the chunked grammar: for every list of non-empty chunks, every hexadecimal spelling of
   * the sizes, every extension and every trailer section, the body is the concatenated data and the bytes after
   * the message stay in the buffer.
   */
  lemma {:induction false} ChunkedDecodes(
    codec: Codec, s: State, chunks: seq<Chunk>, zero: Bytes, ext: Bytes, trailers: seq<Bytes>, rest: Bytes)
    requires BeforeSize(s) && s.buf == RenderBody(chunks, zero, ext, trailers) + rest
    requires forall c :: c in chunks ==> IsChunk(c)
    requires AllDigits(zero, 16) && Value(zero, 16) == 0 && IsExt(ext)
    requires forall l :: l in trailers ==> IsLine(l)
    ensures ParseChunked(codec, s)
         == Finalize(codec, s.(buf := rest, body := s.body + Data(chunks), inTrailers := true))
    decreases |chunks|
  {
    hide AllDigits, IsExt, IsChunk, IsLine, RenderChunk, Section, Finalize, SizeTurn, TrailerTurn, DataTurn, Value;
    if chunks == [] {
      var tail := Section(trailers) + rest;
      assert s.buf == zero + ext + CRLF + tail;
      SizeLineTurn(s, zero, ext, tail);
      var s' := s.(buf := tail, inTrailers := true);
      TrailerReads(codec, s', trailers, rest);
      assert s.body + Data(chunks) == s.body;
    } else {
      var c := chunks[0];
      var tail := RenderBody(chunks[1..], zero, ext, trailers) + rest;
      assert s.buf == RenderChunk(c) + tail;
      ChunkTurnReads(codec, s, c, tail);
      var s' := s.(buf := tail, body := s.body + c.data);
      ChunkedDecodes(codec, s', chunks[1..], zero, ext, trailers, rest);
      assert s.body + Data(chunks) == s'.body + Data(chunks[1..]);
    }
  }

  predicate SaysChunked(store: Store) {
    var te := Get(store, "Transfer-Encoding");
    te.Some? && Contains(Lower(te.value), "chunked")
  }

  /**
   * A whole chunked response, status line to trailer section, is self-delimited: it parses to its parts, no proper
   * prefix of it completes or fails, and what follows it is left untouched.
   */
  lemma ChunkedMessage(
    codec: Codec, status: Bytes, lines: seq<Bytes>, chunks: seq<Chunk>, zero: Bytes, ext: Bytes,
    trailers: seq<Bytes>, prefix: Bytes, rest: Bytes)
    requires Find(status, CRLF) == -1 && MatchStatusLine(status).Some?
    requires forall l :: l in lines ==> IsLine(l)
    requires HeaderLines([], lines).Parsed? && SaysChunked(HeaderLines([], lines).store)
    requires forall c :: c in chunks ==> IsChunk(c)
    requires AllDigits(zero, 16) && Value(zero, 16) == 0 && IsExt(ext)
    requires forall l :: l in trailers ==> IsLine(l)
    requires Decompress(codec, HeaderLines([], lines).store, Data(chunks)).Some?
    ensures var m, store := MatchStatusLine(status).value, HeaderLines([], lines).store;
      var message := RenderHead(status, lines) + RenderBody(chunks, zero, ext, trailers);
      var r := Feed(codec, INIT, message + rest);
      && r.Ok? && r.state.phase == Done && r.state.buf == rest
      && r.state.response == Some(Response(m.code, m.reason, m.version, store,
                                           Decompress(codec, store, Data(chunks)).value))
      && SelfDelimited(codec, message)
      && (prefix < message ==> Feed(codec, INIT, prefix).Ok? && Feed(codec, INIT, prefix).state.phase != Done)
  {
    hide Parse, MatchStatusLine, HeaderLines, RenderHead, RenderBody, Decompress, Contains, Get, AllDigits, IsExt,
         IsChunk, IsLine;
    ChunkedWhole(codec, status, lines, chunks, zero, ext, trailers, []);
    var message := RenderHead(status, lines) + RenderBody(chunks, zero, ext, trailers);
    assert message + [] == message;
    ExactConsumption(codec, message, prefix, rest);
  }

  lemma ChunkedWhole(
    codec: Codec, status: Bytes, lines: seq<Bytes>, chunks: seq<Chunk>, zero: Bytes, ext: Bytes,
    trailers: seq<Bytes>, rest: Bytes)
    requires Find(status, CRLF) == -1 && MatchStatusLine(status).Some?
    requires forall l :: l in lines ==> IsLine(l)
    requires HeaderLines([], lines).Parsed? && SaysChunked(HeaderLines([], lines).store)
    requires forall c :: c in chunks ==> IsChunk(c)
    requires AllDigits(zero, 16) && Value(zero, 16) == 0 && IsExt(ext)
    requires forall l :: l in trailers ==> IsLine(l)
    requires Decompress(codec, HeaderLines([], lines).store, Data(chunks)).Some?
    ensures var m, store := MatchStatusLine(status).value, HeaderLines([], lines).store;
      var r := Feed(codec, INIT, RenderHead(status, lines) + RenderBody(chunks, zero, ext, trailers) + rest);
      && r.Ok? && r.state.phase == Done && r.state.buf == rest
      && r.state.response == Some(Response(m.code, m.reason, m.version, store,
                                           Decompress(codec, store, Data(chunks)).value))
      && r.state.headers == store && r.state.body == Data(chunks)
  {
    hide Parse, MatchStatusLine, HeaderLines, RenderHead, RenderBody, Decompress, Contains, Get, AllDigits, IsExt,
         IsChunk, IsLine, ParseChunked;
    var body := RenderBody(chunks, zero, ext, trailers) + rest;
    var d := RenderHead(status, lines) + RenderBody(chunks, zero, ext, trailers) + rest;
    assert d == RenderHead(status, lines) + body;
    HeadReadsBack(status, lines, body);
    var s := HeadOf(MatchStatusLine(status).value, HeaderLines([], lines).store, body);
    assert ResolveFraming(s) == Ok(s.(chunked := true));
    ViaHead(codec, d);
    ChunkedDecodes(codec, s.(chunked := true, phase := Body), chunks, zero, ext, trailers, rest);
    assert s.body + Data(chunks) == Data(chunks);
  }

  /** A response with Content-Length N and N bytes after its head is self-delimited in the same way. */
  lemma FixedLengthMessage(codec: Codec, status: Bytes, lines: seq<Bytes>, body: Bytes, prefix: Bytes, rest: Bytes)
    requires Find(status, CRLF) == -1 && MatchStatusLine(status).Some?
    requires forall l :: l in lines ==> IsLine(l)
    requires HeaderLines([], lines).Parsed?
    requires var s := HeadOf(MatchStatusLine(status).value, HeaderLines([], lines).store, body);
      ResolveFraming(s) == Ok(s.(contentLength := Some(|body|)))
    requires Decompress(codec, HeaderLines([], lines).store, body).Some?
    ensures var m, store := MatchStatusLine(status).value, HeaderLines([], lines).store;
      var message := RenderHead(status, lines) + body;
      var r := Feed(codec, INIT, message + rest);
      && r.Ok? && r.state.phase == Done && r.state.buf == rest
      && r.state.response == Some(Response(m.code, m.reason, m.version, store, Decompress(codec, store, body).value))
      && SelfDelimited(codec, message)
      && (prefix < message ==> Feed(codec, INIT, prefix).Ok? && Feed(codec, INIT, prefix).state.phase != Done)
  {
    hide Feed, MatchStatusLine, HeaderLines, RenderHead, Decompress, ResolveFraming, IsLine, AfterHead;
    var message := RenderHead(status, lines) + body;
    HeadReadsBack(status, lines, body);
    var s := HeadOf(MatchStatusLine(status).value, HeaderLines([], lines).store, body)
             .(contentLength := Some(|body|), phase := Body);
    FixedLengthWhole(codec, message, s);
    ExactConsumption(codec, message, prefix, rest);
  }

  lemma FixedLengthWhole(codec: Codec, message: Bytes, s: State)
    requires AfterHead(message) == Ok(s) && s.phase == Body && !s.chunked && s.contentLength == Some(|s.buf|)
    requires Decompress(codec, s.headers, s.buf).Some?
    ensures var r := Feed(codec, INIT, message);
      && r.Ok? && r.state.phase == Done && r.state.buf == []
      && r.state.response == Some(Response(s.code, s.reason, s.version, s.headers,
                                           Decompress(codec, s.headers, s.buf).value))
  {
    hide Parse, Decompress, AfterHead, TakeNeeded;
    ViaHead(codec, message);
    NeededFromStart(s);
    NeededSameHead(s);
    assert s.buf[..|s.buf|] == s.buf;
  }

  lemma NeededSameHead(s: State)
    requires s.contentLength.Some?
    ensures SameHead(s, TakeNeeded(s))
  {
  }

  // A chunked body cut short, byte for byte.

  const CUT_STATUS: Bytes := "HTTP/1.1 200 OK"
  const CUT_LINE: Bytes := "Transfer-Encoding: chunked"
  const CUT_BODY: Bytes := "5\r\nhe"

  lemma CutLineEnds()
    ensures Find(CUT_STATUS, CRLF) == -1 && Find(CUT_LINE, CRLF) == -1 && CUT_LINE != []
  {
    NoLineEnd(CUT_STATUS);
    NoLineEnd(CUT_LINE);
  }

  lemma CutReason()
    ensures MatchReason(" OK") == Some("OK")
  {
    var rest: Bytes := " OK";
    forall j ensures !At(rest, ['\n'], j) {
      if 0 <= j < 3 {
        assert rest[j..j + 1][0] == rest[j];
      }
    }
    assert rest[1..] == "OK";
  }

  lemma CutCode()
    ensures Value("200", 10) == 200
  {
    var code: Bytes := "200";
    assert code[..2] == "20" && code[..2][..1] == "2" && code[..2][..1][..0] == [];
    assert Value("2", 10) == 2;
    assert Value("20", 10) == 20;
  }

  lemma CutStatusLine()
    ensures MatchStatusLine(CUT_STATUS) == Some(StatusLine("HTTP/1.1", 200, "OK"))
  {
    hide Value, MatchReason;
    CutReason();
    CutCode();
    assert CUT_STATUS[12..] == " OK" && CUT_STATUS[9..12] == "200";
    assert CUT_STATUS[..5] == "HTTP/" && CUT_STATUS[..8] == "HTTP/1.1";
  }

  lemma CutName()
    ensures Find(CUT_LINE, [':']) == 17 && CUT_LINE[..17] == "Transfer-Encoding" && CUT_LINE[18..] == " chunked"
    ensures Strip("Transfer-Encoding", StrSpace) == "Transfer-Encoding"
  {
    assert At(CUT_LINE, [':'], 17);
    forall j | 0 <= j < 17 ensures !At(CUT_LINE, [':'], j) {
      assert CUT_LINE[j..j + 1][0] == CUT_LINE[j];
    }
    StripIdentity("Transfer-Encoding", StrSpace);
  }

  lemma CutValue()
    ensures Strip(" chunked", StrSpace) == "chunked"
  {
    var value: Bytes := " chunked";
    assert value[1..] == "chunked";
    assert LStrip("chunked", StrSpace) == "chunked";
    assert LStrip(value, StrSpace) == "chunked";
  }

  lemma CutLine()
    ensures HeaderLines([], [CUT_LINE]) == Parsed(AddLine([], Line("Transfer-Encoding", "chunked")))
  {
    hide Find, Strip, AddLine;
    CutName();
    CutValue();
    assert [CUT_LINE][1..] == [];
    assert CUT_LINE[0] == 'T';
    hide CUT_LINE;
  }

  lemma CutStore()
    ensures SaysChunked(AddLine([], Line("Transfer-Encoding", "chunked")))
  {
    var store := AddLine([], Line("Transfer-Encoding", "chunked"));
    assert Lookup(store, Lower("Transfer-Encoding")) == ["chunked"];
    assert Get(store, "Transfer-Encoding") == Some("chunked");
    assert Lower("chunked") == "chunked";
    assert At("chunked", "chunked", 0);
  }

  /** Five bytes announced, two received, then EOF: the parser raises instead of finalizing. */
  lemma CutChunkRaises(codec: Codec)
    ensures var d := RenderHead(CUT_STATUS, [CUT_LINE]) + CUT_BODY;
      && Feed(codec, INIT, d).Ok? && Feed(codec, INIT, d).state.phase == Body && Feed(codec, INIT, d).state.body == "he"
      && FeedEof(codec, Feed(codec, INIT, d).state) == Failed(EofInsideChunkData)
  {
    hide *;
    CutStatusLine();
    CutLine();
    CutStore();
    CutLineEnds();
    CutParts(codec, CUT_STATUS, CUT_LINE, StatusLine("HTTP/1.1", 200, "OK"),
             AddLine([], Line("Transfer-Encoding", "chunked")));
  }

  lemma CutParts(codec: Codec, status: Bytes, line: Bytes, m: StatusLine, store: Store)
    requires Find(status, CRLF) == -1 && MatchStatusLine(status) == Some(m)
    requires line != [] && Find(line, CRLF) == -1 && HeaderLines([], [line]) == Parsed(store) && SaysChunked(store)
    ensures var d := RenderHead(status, [line]) + CUT_BODY;
      && Feed(codec, INIT, d).Ok? && Feed(codec, INIT, d).state.phase == Body && Feed(codec, INIT, d).state.body == "he"
      && FeedEof(codec, Feed(codec, INIT, d).state) == Failed(EofInsideChunkData)
  {
    hide Parse, Feed, FeedEof, MatchStatusLine, HeaderLines, RenderHead, SaysChunked, ParseChunked, ResolveFraming,
         AfterHead;
    HeadReadsBack(status, [line], CUT_BODY);
    var s := HeadOf(m, store, CUT_BODY);
    ChunkedFraming(s);
    CutBody(codec, s.(chunked := true, phase := Body));
    ChunkedPass(codec, RenderHead(status, [line]) + CUT_BODY, s.(chunked := true, phase := Body));
  }

  lemma ChunkedPass(codec: Codec, d: Bytes, s: State)
    requires AfterHead(d) == Ok(s) && s.phase == Body && s.chunked && ParseChunked(codec, s).Ok?
    ensures Feed(codec, INIT, d) == ParseChunked(codec, s)
    ensures FeedEof(codec, ParseChunked(codec, s).state) == EofVerdict(codec, ParseChunked(codec, s).state)
  {
    hide Parse;
    ViaHead(codec, d);
    EarlyEof(codec, d);
  }

  lemma ChunkedFraming(s: State)
    requires SaysChunked(s.headers)
    ensures ResolveFraming(s) == Ok(s.(chunked := true))
  {
  }

  lemma CutBody(codec: Codec, s: State)
    requires BeforeSize(s) && s.buf == CUT_BODY && s.body == []
    ensures ParseChunked(codec, s) == Ok(s.(buf := [], body := "he", chunkRemaining := 3, awaitingSize := false))
  {
    hide AllDigits, IsExt, Value, SizeTurn;
    CutSize();
    assert s.buf == "5" + [] + CRLF + "he";
    SizeLineTurn(s, "5", [], "he");
    var s' := s.(buf := "he", chunkRemaining := 5, awaitingSize := false);
    assert [] + s'.buf[..2] == "he" && s'.buf[2..] == [];
    assert TakeChunk(s') == s.(buf := [], body := "he", chunkRemaining := 3, awaitingSize := false);
  }

  lemma CutSize()
    ensures AllDigits("5", 16) && Value("5", 16) == 5 && IsExt([])
  {
    var size: Bytes := "5";
    assert size[..0] == [];
    assert Value(size[..0], 16) == 0;
  }
}
