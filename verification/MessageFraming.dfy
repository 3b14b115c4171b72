/** How the header lines of a response decide where its body ends, read off the lines and the status code. */
module MessageFraming {
  import opened ByteStrings
  import opened PyInt
  import opened HeaderMap
  import opened ParserSpec
  import opened Framing
  import opened Grammar
  import opened ContentCoding
  import opened FieldLists
  import HeaderSection

  /** A response head: its status line, its header lines as text, and what the two say. */
  datatype HeadText = HeadText(status: Bytes, lines: seq<Bytes>, said: StatusLine, fields: seq<Line>)

  predicate IsHead(h: HeadText) {
    && Find(h.status, CRLF) == -1 && MatchStatusLine(h.status) == Some(h.said)
    && (forall l :: l in h.lines ==> IsLine(l))
    && HeaderLines([], h.lines) == Parsed(FromLines(h.fields))
  }

  function Text(h: HeadText): Bytes {
    RenderHead(h.status, h.lines)
  }

  predicate Chunked(h: HeadText) {
    Says(h.fields, "transfer-encoding", "chunked")
  }

  /** Status codes whose responses have no body: section 6.3 of RFC 9112. */
  predicate Bodiless(h: HeadText) {
    h.said.code < 200 || h.said.code == 204 || h.said.code == 304
  }

  function Lengths(h: HeadText): seq<Bytes> {
    Matching(h.fields, "content-length")
  }

  function LengthText(h: HeadText): Bytes {
    Join(Lengths(h), COMMA)
  }

  function Announced(h: HeadText): Option<int> {
    ParseInt(Strip(LengthText(h), StrSpace), 10)
  }

  lemma FramingNames()
    ensures Lower("Transfer-Encoding") == "transfer-encoding" && Lower("Content-Length") == "content-length"
  {
    LowerTransfer();
    LowerLength();
  }

  /** Which framing a head chooses, and which heads are rejected: those whose Content-Length counts and is no number. */
  lemma FramingDecided(h: HeadText, rest: Bytes)
    requires IsHead(h)
    ensures var r, s := AfterHead(Text(h) + rest), HeadOf(h.said, FromLines(h.fields), rest).(phase := Body);
      if Chunked(h) then r == Ok(s.(chunked := true))
      else if Bodiless(h) then r == Ok(s.(contentLength := Some(0)))
      else if Lengths(h) == [] then r == Ok(s.(untilClose := true))
      else if Announced(h).Some? then r == Ok(s.(contentLength := Announced(h)))
      else r == Failed(InvalidContentLength(LengthText(h)))
  {
    hide MatchStatusLine, HeaderLines, RenderHead, IsLine, Get, Contains, Lower, ParseInt, Strip, Join, Matching, Says,
         FromLines, AfterHead;
    FramingNames();
    HeadReadsBack(h.status, h.lines, rest);
    GetSays(h.fields, "Transfer-Encoding", "chunked");
    GetJoins(h.fields, "Content-Length");
  }

  lemma NoContent(codec: Codec, headers: Store)
    ensures Decompress(codec, headers, []) == Some([])
  {
  }

  lemma NothingNeeded(codec: Codec, s: State)
    requires s.contentLength.Some? && s.contentLength.value <= 0 && s.body == []
    ensures ParseFixedLength(codec, s)
         == Ok(s.(response := Some(Response(s.code, s.reason, s.version, s.headers, [])), phase := Done))
  {
    hide Decompress;
    NoContent(codec, s.headers);
  }

  function Answer(h: HeadText, content: Bytes): Response {
    Response(h.said.code, h.said.reason, h.said.version, FromLines(h.fields), content)
  }

  /** Done at the blank line, with an empty body, whatever a Content-Length says and whatever follows. */
  lemma BodilessMessage(codec: Codec, h: HeadText, rest: Bytes)
    requires IsHead(h) && !Chunked(h) && Bodiless(h)
    ensures var r := Feed(codec, INIT, Text(h) + rest);
      r.Ok? && r.state.phase == Done && r.state.buf == rest && r.state.response == Some(Answer(h, []))
  {
    hide Feed, AfterHead, ParseFixedLength, FromLines, IsHead;
    FramingDecided(h, rest);
    ViaHead(codec, Text(h) + rest);
    NothingNeeded(codec, AfterHead(Text(h) + rest).state);
  }

  /** So does a negative length, which Python's `int` reads. */
  lemma NegativeLengthMessage(codec: Codec, h: HeadText, rest: Bytes)
    requires IsHead(h) && !Chunked(h) && !Bodiless(h) && Lengths(h) != []
    requires Announced(h).Some? && Announced(h).value < 0
    ensures var r := Feed(codec, INIT, Text(h) + rest);
      r.Ok? && r.state.phase == Done && r.state.buf == rest && r.state.response == Some(Answer(h, []))
  {
    hide Feed, AfterHead, ParseFixedLength, FromLines, IsHead;
    FramingDecided(h, rest);
    ViaHead(codec, Text(h) + rest);
    NothingNeeded(codec, AfterHead(Text(h) + rest).state);
  }

  /**
   * The promise that 1xx, 204 and 304 carry no body regardless of headers is kept exactly when no line says chunked:
   * that is looked at first, and then the parser waits for chunks.
   */
  lemma BodilessExactly(codec: Codec, h: HeadText)
    requires IsHead(h) && Bodiless(h)
    ensures Completes(Feed(codec, INIT, Text(h))) <==> !Chunked(h)
  {
    hide Feed, AfterHead, ParseChunked, FromLines, IsHead, Chunked, Bodiless;
    assert Text(h) + [] == Text(h);
    if Chunked(h) {
      FramingDecided(h, []);
      ViaHead(codec, Text(h));
      NoChunkYet(codec, AfterHead(Text(h)).state);
    } else {
      BodilessMessage(codec, h, []);
    }
  }

  /** A status line written out as section 4 of RFC 9112 has it. */
  function StatusText(m: StatusLine): Bytes
    requires m.code < 1000
  {
    m.version + [' '] + ThreeDigits(m.code) + ([' '] + m.reason)
  }

  /** It is read back. */
  lemma StatusReadsBack(m: StatusLine)
    requires IsVersion(m.version) && m.code < 1000 && '\n' !in m.reason && '\r' !in m.reason
    ensures MatchStatusLine(StatusText(m)) == Some(m) && Find(StatusText(m), CRLF) == -1
  {
    hide MatchStatusLine, ThreeDigits;
    var line, head := StatusText(m), m.version + [' '] + ThreeDigits(m.code);
    assert line[..12] == head && line[12..] == [' '] + m.reason;
    StatusLineExactly(line, m);
    NoReturns(m);
    NoLineEnd(line);
  }

  lemma NoReturns(m: StatusLine)
    requires IsVersion(m.version) && m.code < 1000 && '\r' !in m.reason
    ensures '\r' !in StatusText(m)
  {
    assert m.version == m.version[..5] + [m.version[5], '.', m.version[7]];
    assert '\r' !in m.version[..5];
  }

  const NO_CONTENT_STATUS := StatusLine("HTTP/1.1", 204, "No Content")

  const NO_CONTENT := HeadText(StatusText(NO_CONTENT_STATUS), [CUT_LINE], NO_CONTENT_STATUS,
                               [Line("Transfer-Encoding", "chunked")])

  lemma NoContentLine()
    ensures MatchStatusLine(StatusText(NO_CONTENT_STATUS)) == Some(NO_CONTENT_STATUS)
    ensures Find(StatusText(NO_CONTENT_STATUS), CRLF) == -1
  {
    hide MatchStatusLine, StatusText;
    assert NO_CONTENT_STATUS.version[..5] == "HTTP/";
    StatusReadsBack(NO_CONTENT_STATUS);
  }

  lemma ChunkedLine()
    ensures Says([Line("Transfer-Encoding", "chunked")], "transfer-encoding", "chunked")
    ensures FromLines([Line("Transfer-Encoding", "chunked")]) == AddLine([], Line("Transfer-Encoding", "chunked"))
  {
    hide AddLine, Contains;
    var l := Line("Transfer-Encoding", "chunked");
    HeaderSection.FromLinesNone();
    HeaderSection.FromLinesSnoc([], l);
    assert [] + [l] == [l];
    LowerTransfer();
    assert [l][..0] == [] && Matching([], "transfer-encoding") == [];
    assert Matching([l], "transfer-encoding") == ["chunked"];
    assert Lower("chunked") == "chunked";
    ContainsSelf("chunked");
    assert Contains(Lower(Matching([l], "transfer-encoding")[0]), "chunked");
  }

  lemma ContainsSelf(s: Bytes)
    ensures Contains(s, s)
  {
    assert At(s, s, 0);
  }

  /** For one, a 204 that says chunked is not complete at its blank line. */
  lemma NoContentWaits(codec: Codec)
    ensures IsHead(NO_CONTENT) && Bodiless(NO_CONTENT) && !Completes(Feed(codec, INIT, Text(NO_CONTENT)))
  {
    hide Feed, MatchStatusLine, HeaderLines, Says, AddLine, FromLines, RenderHead, Find, CUT_LINE, StatusText;
    NoContentLine();
    CutLineEnds();
    CutLine();
    ChunkedLine();
    BodilessExactly(codec, NO_CONTENT);
  }

  lemma NoChunkYet(codec: Codec, s: State)
    requires BeforeSize(s) && s.buf == []
    ensures ParseChunked(codec, s) == Ok(s)
  {
  }

  /** One Content-Length of digits: exactly that many bytes are the body. */
  lemma LengthMessage(codec: Codec, h: HeadText, length: Bytes, body: Bytes, prefix: Bytes, rest: Bytes)
    requires IsHead(h) && !Chunked(h) && !Bodiless(h)
    requires Lengths(h) == [length] && AllDigits(length, 10) && Value(length, 10) == |body|
    requires Decompress(codec, FromLines(h.fields), body).Some?
    ensures var r := Feed(codec, INIT, Text(h) + body + rest);
      && r.Ok? && r.state.phase == Done && r.state.buf == rest
      && r.state.response == Some(Answer(h, Decompress(codec, FromLines(h.fields), body).value))
      && SelfDelimited(codec, Text(h) + body)
      && (prefix < Text(h) + body ==>
            Feed(codec, INIT, prefix).Ok? && Feed(codec, INIT, prefix).state.phase != Done)
  {
    hide Feed, AfterHead, FromLines, Chunked, Bodiless, Decompress, ParseInt, Strip, Value, MatchStatusLine,
         HeaderLines, RenderHead, IsLine, ResolveFraming, SelfDelimited;
    DigitsAreContent(length);
    ParseDigits(length, 10);
    JoinSingle(length);
    FramingDecided(h, body);
    ResolvedBefore(h, body);
    FixedLengthMessage(codec, h.status, h.lines, body, prefix, rest);
  }

  lemma JoinSingle(s: Bytes)
    ensures Join([s], COMMA) == s
  {
  }

  lemma ResolvedBefore(h: HeadText, rest: Bytes)
    requires IsHead(h) && AfterHead(Text(h) + rest).Ok?
    ensures var s := HeadOf(h.said, FromLines(h.fields), rest);
      ResolveFraming(s).Ok? && AfterHead(Text(h) + rest) == Ok(ResolveFraming(s).state.(phase := Body))
      && ResolveFraming(s).state.phase == Head
  {
    hide MatchStatusLine, HeaderLines, RenderHead, IsLine, FromLines, AfterHead;
    HeadReadsBack(h.status, h.lines, rest);
    ResolveKeepsPhase(HeadOf(h.said, FromLines(h.fields), rest));
  }

  lemma ResolveKeepsPhase(s: State)
    ensures ResolveFraming(s).Ok? ==> ResolveFraming(s).state.phase == s.phase
  {
    hide Get, Contains, Strip, ParseInt;
  }

  /** An unreadable Content-Length that counts raises as soon as the head is there. */
  lemma BadLengthMessage(codec: Codec, h: HeadText, rest: Bytes)
    requires IsHead(h) && !Chunked(h) && !Bodiless(h) && Lengths(h) != [] && Announced(h).None?
    ensures Feed(codec, INIT, Text(h) + rest) == Failed(InvalidContentLength(LengthText(h)))
  {
    hide Feed, AfterHead, FromLines, IsHead, Chunked, Bodiless, Announced, LengthText;
    FramingDecided(h, rest);
    ViaHead(codec, Text(h) + rest);
  }

  lemma {:induction false} LStripKeeps(s: Bytes, space: Byte -> bool, c: Byte)
    requires c in s && !space(c)
    ensures c in LStrip(s, space)
  {
    if space(s[0]) {
      assert s == [s[0]] + s[1..];
      LStripKeeps(s[1..], space, c);
    } else {
    }
  }

  lemma {:induction false} RStripKeeps(s: Bytes, space: Byte -> bool, c: Byte)
    requires c in s && !space(c)
    ensures c in RStrip(s, space)
  {
    if space(s[|s| - 1]) {
      assert s == s[..|s| - 1] + [s[|s| - 1]];
      RStripKeeps(s[..|s| - 1], space, c);
    } else {
    }
  }

  /** Text with anything in it but digits, signs, underscores and white space is no number. */
  lemma NoNumber(text: Bytes, c: Byte)
    requires c in text && !StrSpace(c) && !('0' <= c <= '9') && c != '+' && c != '-' && c != '_'
    ensures ParseInt(Strip(text, StrSpace), 10) == None
  {
    LStripKeeps(text, StrSpace, c);
    RStripKeeps(LStrip(text, StrSpace), StrSpace, c);
    var s := Strip(text, StrSpace);
    assert DigitValue(c) >= 10;
    if s[0] == '+' || s[0] == '-' {
      assert s == [s[0]] + s[1..];
      assert c in s[1..];
    }
  }

  lemma CommaJoined(values: seq<Bytes>)
    requires |values| >= 2
    ensures ',' in Join(values, COMMA)
  {
    assert COMMA[0] == ',';
    assert Join(values, COMMA)[|values[0]|] == ',';
  }

  /** Two Content-Length lines raise, even if they say the same. */
  lemma TwoLengths(codec: Codec, h: HeadText, rest: Bytes)
    requires IsHead(h) && !Chunked(h) && !Bodiless(h) && |Lengths(h)| >= 2
    ensures Feed(codec, INIT, Text(h) + rest) == Failed(InvalidContentLength(LengthText(h)))
  {
    hide Feed, Join, IsHead, Chunked, Bodiless, Strip, ParseInt;
    CommaJoined(Lengths(h));
    NoNumber(LengthText(h), ',');
    BadLengthMessage(codec, h, rest);
  }

  /** Neither header: every byte after the head is body, and only the end of the stream completes the response. */
  lemma CloseMessage(codec: Codec, h: HeadText, rest: Bytes)
    requires IsHead(h) && !Chunked(h) && !Bodiless(h) && Lengths(h) == []
    ensures var r := Feed(codec, INIT, Text(h) + rest);
      && r.Ok? && r.state.phase == Body && r.state.untilClose && r.state.body == rest && r.state.buf == []
      && match Decompress(codec, FromLines(h.fields), rest)
         case None => FeedEof(codec, r.state) == Failed(DecompressionEscaped)
         case Some(content) =>
           && Completes(FeedEof(codec, r.state))
           && FeedEof(codec, r.state).state.response == Some(Answer(h, content))
  {
    hide Feed, FeedEof, AfterHead, ParseUntilClose, FromLines, IsHead, Chunked, Bodiless, Decompress;
    FramingDecided(h, rest);
    ViaHead(codec, Text(h) + rest);
    UntilCloseTakes(codec, AfterHead(Text(h) + rest).state);
    EarlyEof(codec, Text(h) + rest);
  }

  /** A line that says chunked, among others and in any case: the body is read as `Grammar.ChunkedMessage` says. */
  lemma ChunkedByLines(h: HeadText)
    requires IsHead(h)
    ensures SaysChunked(FromLines(h.fields)) <==> Chunked(h)
  {
    hide Get, Contains, Lower, Says, FromLines, IsHead;
    FramingNames();
    GetSays(h.fields, "Transfer-Encoding", "chunked");
  }
}
