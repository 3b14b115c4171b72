/** Content-Encoding: what decompression can change about a response, and when it makes the parser raise. */
module ContentCoding {
  import opened ByteStrings
  import opened PyInt
  import opened HeaderMap
  import opened ParserSpec
  import opened Segmentation
  import opened Framing
  import opened Grammar
  import HeaderSection

  /** Decompressors that never succeed and never raise anything uncaught: the content is the body as it came. */
  const PLAIN := Codec(_ => Caught, _ => Caught, _ => Caught)

  lemma PlainKeeps(headers: Store, data: Bytes)
    ensures Decompress(PLAIN, headers, data) == Some(data)
  {
    hide Get, Strip, Lower;
  }

  /** The outcome of a run without decompression, with its body decompressed at the end. */
  function Recode(codec: Codec, r: Outcome): Outcome {
    match r
    case Failed(_) => r
    case Ok(s) =>
      if s.response.None? then r
      else
        match Decompress(codec, s.headers, s.body)
        case None => Failed(DecompressionEscaped)
        case Some(content) => Ok(s.(response := Some(s.response.value.(content := content))))
  }

  lemma FinalizeRecodes(codec: Codec, s: State)
    ensures Finalize(codec, s) == Recode(codec, Finalize(PLAIN, s))
    ensures Finalize(PLAIN, s).Ok? && Finalize(PLAIN, s).state.phase == Done && Finalize(PLAIN, s).state.response.Some?
  {
    hide Decompress;
    PlainKeeps(s.headers, s.body);
  }

  function RecodeTurn(codec: Codec, t: Turn): Turn {
    match t
    case Next(_) => t
    case Stop(r) => Stop(Recode(codec, r))
  }

  lemma TurnRecodes(codec: Codec, s: State)
    requires s.response.None?
    ensures ChunkTurn(codec, s) == RecodeTurn(codec, ChunkTurn(PLAIN, s))
    ensures ChunkTurn(PLAIN, s).Next? ==> ChunkTurn(PLAIN, s).state.response.None?
  {
    hide Decompress, Finalize, ParseInt, SizeToken, Find;
    if s.inTrailers {
      FinalizeRecodes(codec, s);
      if CRLF <= s.buf {
        FinalizeRecodes(codec, s.(buf := s.buf[2..]));
      } else if Find(s.buf, BLANK) != -1 {
        FinalizeRecodes(codec, s.(buf := s.buf[Find(s.buf, BLANK) + 4..]));
      }
    } else {
    }
  }

  lemma {:induction false} ChunkedRecodes(codec: Codec, s: State)
    requires s.response.None?
    ensures ParseChunked(codec, s) == Recode(codec, ParseChunked(PLAIN, s))
    decreases |s.buf|
  {
    hide ChunkTurn, Recode;
    TurnRecodes(codec, s);
    match ChunkTurn(PLAIN, s)
    case Stop(_) =>
    case Next(s') => ChunkedRecodes(codec, s');
  }

  lemma BodyRecodes(codec: Codec, s: State)
    requires s.response.None?
    ensures BodyStage(codec, s) == Recode(codec, BodyStage(PLAIN, s))
  {
    hide Decompress, ParseChunked, Finalize, TakeNeeded;
    ChunkedRecodes(codec, s);
    FinalizeRecodes(codec, Take(s, |s.buf|));
    if s.contentLength.Some? {
      NeededKeeps(s);
      FinalizeRecodes(codec, TakeNeeded(s));
    }
  }

  lemma NeededKeeps(s: State)
    requires s.contentLength.Some?
    ensures TakeNeeded(s).response == s.response
  {
  }

  /** A later body stage on a state that is not done is recoded again; on one that is done it is idle. */
  lemma AgainRecodes(codec: Codec, r: Outcome)
    requires r.Ok? ==> Framed(r.state)
    ensures (match Recode(codec, r) case Failed(e) => Failed(e) case Ok(s) => BodyStage(codec, s))
         == Recode(codec, match r case Failed(e) => Failed(e) case Ok(s) => BodyStage(PLAIN, s))
  {
    hide Decompress, ParseBody;
    if r.Ok? && r.state.response.None? {
      BodyRecodes(codec, r.state);
    }
  }

  /** Decompression decides nothing but the content, or an uncaught error in its place, at the very end of a pass. */
  lemma ParseRecodes(codec: Codec, s: State)
    requires Framed(s) && s.phase != Done
    ensures Parse(codec, s) == Recode(codec, Parse(PLAIN, s))
  {
    hide ParseStatusLine, ParseHead, BodyStage, Decompress, Framed;
    StatusAdvances(s);
    FramedResponse(s);
    var r1 := StatusStage(s);
    if r1.Ok? {
      var s1 := r1.state;
      FramedResponse(s1);
      if s1.phase == Head {
        var r2 := ParseHead(s1);
        HeadAdvances(s1);
        if r2.Ok? {
          HeadNotDone(s1);
          FramedResponse(r2.state);
          BodyRecodes(codec, r2.state);
          BodyAdvances(PLAIN, r2.state);
          AgainRecodes(codec, BodyStage(PLAIN, r2.state));
        }
      } else {
        StatusNotDone(s);
        BodyRecodes(codec, s1);
      }
    }
  }

  lemma FramedResponse(s: State)
    requires Framed(s)
    ensures s.response.Some? <==> s.phase == Done
  {
  }

  lemma StatusNotDone(s: State)
    requires s.phase != Done
    ensures StatusStage(s).Ok? ==> StatusStage(s).state.phase != Done
  {
    hide At, Find, MatchStatusLine;
  }

  lemma HeadNotDone(s: State)
    requires s.phase == Head
    ensures ParseHead(s).Ok? ==> ParseHead(s).state.phase != Done
  {
    hide HeaderBlock, HeaderLines, SplitLines, Get, Contains, Strip, ParseInt;
  }

  /** The outcome of feeding `d`, and then possibly the end of the stream. */
  function Run(codec: Codec, d: Bytes, eof: bool): Outcome {
    var r := Feed(codec, INIT, d);
    if eof then ThenEof(codec, r) else r
  }

  predicate Completes(r: Outcome) {
    r.Ok? && r.state.phase == Done
  }

  lemma RunRecodes(codec: Codec, d: Bytes, eof: bool)
    ensures Run(codec, d, eof) == Recode(codec, Run(PLAIN, d, eof))
    ensures Run(PLAIN, d, eof).Ok? ==> Framed(Run(PLAIN, d, eof).state)
  {
    hide Parse, Decompress, Framed;
    InitFramed(d);
    ParseRecodes(codec, More(INIT, d));
    ParseAdvances(PLAIN, More(INIT, d));
    var r := Feed(PLAIN, INIT, d);
    if eof && r.Ok? {
      var s := r.state;
      FramedResponse(s);
      EofFramed(s);
      ParseAdvances(PLAIN, s.(eof := true));
      if s.phase == Done {
        DoneIdle(PLAIN, s);
        if Recode(codec, r).Ok? {
          DoneIdle(codec, Recode(codec, r).state);
        }
      } else {
        ParseRecodes(codec, s.(eof := true));
      }
    }
  }

  lemma InitFramed(d: Bytes)
    ensures Framed(More(INIT, d)) && More(INIT, d).phase != Done
  {
  }

  lemma EofFramed(s: State)
    requires Framed(s)
    ensures Framed(s.(eof := true))
  {
  }

  lemma DoneIdle(codec: Codec, s: State)
    requires s.phase == Done
    ensures FeedEof(codec, s) == Ok(s.(eof := true))
  {
  }

  // When decompression raises.

  /** The library raises an error that `_decompress` does not catch on this body. */
  predicate Escapes(codec: Codec, headers: Store, body: Bytes) {
    var encoding := Get(headers, "Content-Encoding");
    body != [] && encoding.Some? &&
    var name := Strip(Lower(encoding.value), StrSpace);
    || (name == "gzip" && codec.gunzip(body).Escaped?)
    || (name == "deflate" && (codec.zlib(body).Escaped? || (codec.zlib(body).Caught? && codec.raw(body).Escaped?)))
  }

  lemma DecompressFails(codec: Codec, headers: Store, body: Bytes)
    ensures Decompress(codec, headers, body).None? <==> Escapes(codec, headers, body)
  {
    hide Get, Strip;
    assert Lower([]) == [];
    StripIdentity([], StrSpace);
  }

  /**
   * Every message, in every framing, whole or cut short by the end of the stream: it completes exactly when the same
   * bytes complete without decompression and the body they carry does not make a decompressor raise an uncaught
   * error; if it does, that error takes the place of the response.
   */
  lemma CompletesExactly(codec: Codec, d: Bytes, eof: bool)
    ensures var plain, r := Run(PLAIN, d, eof), Run(codec, d, eof);
      && (Completes(r) <==> Completes(plain) && !Escapes(codec, plain.state.headers, plain.state.body))
      && (Completes(plain) && !Completes(r) ==> r == Failed(DecompressionEscaped))
      && (!Completes(plain) ==> r == plain)
  {
    hide Run, Decompress, Escapes;
    RunRecodes(codec, d, eof);
    var plain := Run(PLAIN, d, eof);
    if plain.Ok? {
      DecompressFails(codec, plain.state.headers, plain.state.body);
      FramedResponse(plain.state);
    }
  }

  // Responses that say gzip.

  predicate SaysGzip(store: Store) {
    var encoding := Get(store, "Content-Encoding");
    encoding.Some? && Strip(Lower(encoding.value), StrSpace) == "gzip"
  }

  /** What becomes of a response whose body is `body`. */
  predicate GzipOutcome(codec: Codec, body: Bytes, r: Outcome) {
    match codec.gunzip(body)
    case Inflated(data) => Completes(r) && r.state.response.Some? && r.state.response.value.content == data
    case Caught => Completes(r) && r.state.response.Some? && r.state.response.value.content == body
    case Escaped => r == Failed(DecompressionEscaped)
  }

  lemma GzipRecodes(codec: Codec, s: State)
    requires SaysGzip(s.headers) && s.body != [] && s.phase == Done && s.response.Some?
    ensures GzipOutcome(codec, s.body, Recode(codec, Ok(s)))
  {
    hide Get, Strip, Lower;
    assert Lower([]) == [] by { LowerNothing(); }
    StripIdentity([], StrSpace);
  }

  function Coding(headers: Store): Bytes {
    var encoding := Get(headers, "Content-Encoding");
    if encoding.None? then [] else Strip(Lower(encoding.value), StrSpace)
  }

  predicate Carries(r: Outcome, content: Bytes) {
    Completes(r) && r.state.response.Some? && r.state.response.value.content == content
  }

  /** `deflate` is zlib if the body is that, raw DEFLATE if it is that, and left alone if it is neither. */
  predicate DeflateOutcome(codec: Codec, body: Bytes, r: Outcome) {
    match codec.zlib(body)
    case Inflated(data) => Carries(r, data)
    case Escaped => r == Failed(DecompressionEscaped)
    case Caught =>
      match codec.raw(body)
      case Inflated(data) => Carries(r, data)
      case Escaped => r == Failed(DecompressionEscaped)
      case Caught => Carries(r, body)
  }

  lemma CodingRecodes(codec: Codec, s: State)
    requires s.phase == Done && s.response.Some?
    ensures var r := Recode(codec, Ok(s));
      if s.body == [] then Carries(r, [])
      else if Coding(s.headers) == "gzip" then GzipOutcome(codec, s.body, r)
      else if Coding(s.headers) == "deflate" then DeflateOutcome(codec, s.body, r)
      else Carries(r, s.body)
  {
    hide Get, Strip, Lower;
    LowerNothing();
    StripIdentity([], StrSpace);
  }

  /**
   * What every response carries, in every framing, whole or cut short: the body that the bytes hold, as it came if it
   * is empty or its coding is neither gzip nor deflate, and otherwise as the library makes of it.
   */
  lemma ContentExactly(codec: Codec, d: Bytes, eof: bool)
    requires Completes(Run(PLAIN, d, eof))
    ensures var s, r := Run(PLAIN, d, eof).state, Run(codec, d, eof);
      if s.body == [] then Carries(r, [])
      else if Coding(s.headers) == "gzip" then GzipOutcome(codec, s.body, r)
      else if Coding(s.headers) == "deflate" then DeflateOutcome(codec, s.body, r)
      else Carries(r, s.body)
  {
    hide Run, Coding, GzipOutcome, DeflateOutcome, Carries, Recode;
    RunRecodes(codec, d, eof);
    FramedResponse(Run(PLAIN, d, eof).state);
    CodingRecodes(codec, Run(PLAIN, d, eof).state);
  }

  lemma LowerNothing()
    ensures Lower([]) == []
  {
  }

  /** A whole chunked response that says gzip. */
  lemma GzipChunked(
    codec: Codec, status: Bytes, lines: seq<Bytes>, chunks: seq<Chunk>, zero: Bytes, ext: Bytes,
    trailers: seq<Bytes>)
    requires Find(status, CRLF) == -1 && MatchStatusLine(status).Some?
    requires forall l :: l in lines ==> IsLine(l)
    requires HeaderLines([], lines).Parsed? && SaysChunked(HeaderLines([], lines).store)
    requires SaysGzip(HeaderLines([], lines).store) && chunks != []
    requires forall c :: c in chunks ==> IsChunk(c)
    requires AllDigits(zero, 16) && Value(zero, 16) == 0 && IsExt(ext)
    requires forall l :: l in trailers ==> IsLine(l)
    ensures var message := RenderHead(status, lines) + RenderBody(chunks, zero, ext, trailers);
      GzipOutcome(codec, Data(chunks), Feed(codec, INIT, message))
  {
    hide Parse, Feed, MatchStatusLine, HeaderLines, RenderHead, RenderBody, Decompress, SaysGzip, SaysChunked,
         AllDigits, IsExt, IsLine, GzipOutcome, Recode, Value;
    var message := RenderHead(status, lines) + RenderBody(chunks, zero, ext, trailers);
    PlainKeeps(HeaderLines([], lines).store, Data(chunks));
    ChunkedWhole(PLAIN, status, lines, chunks, zero, ext, trailers, []);
    assert message + [] == message;
    DataNotEmpty(chunks);
    RunRecodes(codec, message, false);
    GzipRecodes(codec, Feed(PLAIN, INIT, message).state);
  }

  lemma DataNotEmpty(chunks: seq<Chunk>)
    requires chunks != [] && IsChunk(chunks[0])
    ensures Data(chunks) != []
  {
    hide AllDigits, IsExt, Value;
  }

  /** The header lines announce a body of `n` bytes. */
  predicate Announces(status: Bytes, lines: seq<Bytes>, n: nat)
    requires MatchStatusLine(status).Some? && HeaderLines([], lines).Parsed?
  {
    var s := HeadOf(MatchStatusLine(status).value, HeaderLines([], lines).store, []);
    ResolveFraming(s) == Ok(s.(contentLength := Some(n)))
  }

  lemma AnnouncedState(status: Bytes, lines: seq<Bytes>, n: nat, body: Bytes)
    requires Find(status, CRLF) == -1 && MatchStatusLine(status).Some?
    requires forall l :: l in lines ==> IsLine(l)
    requires HeaderLines([], lines).Parsed? && Announces(status, lines, n)
    ensures var s := HeadOf(MatchStatusLine(status).value, HeaderLines([], lines).store, body);
      AfterHead(RenderHead(status, lines) + body) == Ok(s.(contentLength := Some(n), phase := Body))
  {
    hide MatchStatusLine, HeaderLines, ResolveFraming, AfterHead, RenderHead;
    HeadReadsBack(status, lines, body);
    var s := HeadOf(MatchStatusLine(status).value, HeaderLines([], lines).store, []);
    FramingMore(s, body);
    assert [] + body == body;
  }

  /** A response that announces `n` bytes and says gzip, all there or cut short by the end of the stream. */
  lemma GzipLength(codec: Codec, status: Bytes, lines: seq<Bytes>, n: nat, body: Bytes)
    requires Find(status, CRLF) == -1 && MatchStatusLine(status).Some?
    requires forall l :: l in lines ==> IsLine(l)
    requires HeaderLines([], lines).Parsed? && Announces(status, lines, n)
    requires SaysGzip(HeaderLines([], lines).store) && 0 < |body| <= n
    ensures GzipOutcome(codec, body, Run(codec, RenderHead(status, lines) + body, |body| < n))
  {
    hide Parse, MatchStatusLine, HeaderLines, RenderHead, Decompress, SaysGzip, GzipOutcome, Recode, ResolveFraming,
         Announces, AfterHead, Run;
    var message := RenderHead(status, lines) + body;
    var s := HeadOf(MatchStatusLine(status).value, HeaderLines([], lines).store, body)
             .(contentLength := Some(n), phase := Body);
    AnnouncedState(status, lines, n, body);
    PlainLength(message, s);
    RunRecodes(codec, message, |body| < n);
    GzipRecodes(codec, Run(PLAIN, message, |body| < n).state);
  }

  lemma PlainLength(message: Bytes, s: State)
    requires AfterHead(message) == Ok(s) && s.phase == Body && !s.chunked && s.contentLength.Some?
    requires s.contentLength.value >= |s.buf|
    ensures var r := Run(PLAIN, message, |s.buf| < s.contentLength.value);
      Completes(r) && r.state.response.Some? && r.state.headers == s.headers && r.state.body == s.buf
  {
    hide Parse, AfterHead, ParseFixedLength, Decompress, Finalize;
    ViaHead(PLAIN, message);
    FixedPlain(s);
    EarlyEof(PLAIN, message);
    var s' := ParseFixedLength(PLAIN, s).state;
    FinalizeRecodes(PLAIN, s'.(eof := true));
    FinalizeHeaders(PLAIN, s'.(eof := true));
  }

  lemma FinalizeHeaders(codec: Codec, s: State)
    ensures Finalize(codec, s).Ok? ==>
      var s' := Finalize(codec, s).state;
      s'.headers == s.headers && s'.body == s.body && s'.chunked == s.chunked && s'.response.Some?
  {
    hide Decompress;
  }

  lemma FixedPlain(s: State)
    requires NoBodyYet(s) && s.phase == Body && !s.chunked && s.contentLength.Some? && s.contentLength.value >= |s.buf|
    ensures var r := ParseFixedLength(PLAIN, s);
      && r.Ok? && r.state.headers == s.headers && r.state.body == s.buf && !r.state.chunked
      && (if |s.buf| == s.contentLength.value then r.state.phase == Done && r.state.response.Some?
          else r.state.phase == Body)
  {
    hide Finalize, Decompress, TakeNeeded;
    NeededFromStart(s);
    NeededHead(s);
    assert s.buf[..|s.buf|] == s.buf;
    FinalizeRecodes(PLAIN, TakeNeeded(s));
    FinalizeHeaders(PLAIN, TakeNeeded(s));
  }

  lemma NeededHead(s: State)
    requires s.contentLength.Some?
    ensures TakeNeeded(s).headers == s.headers && TakeNeeded(s).chunked == s.chunked
  {
  }

  // A gzip body cut short, byte for byte.

  const GZIP_MAGIC: Bytes := [0x1F as char, 0x8B as char]

  /** A fact of the library: a stream cut inside its ten-byte header (section 2.3 of RFC 1952) raises EOFError. */
  ghost predicate CutHeadersEscape(codec: Codec) {
    forall b: Bytes :: GZIP_MAGIC <= b && |b| < 10 ==> codec.gunzip(b).Escaped?
  }

  function GzipFields(n: nat): seq<HeaderSection.Raw> {
    [HeaderSection.Field("Content-Encoding", " ", "gzip", ""),
     HeaderSection.Field("Content-Length", " ", Decimal(n), "")]
  }

  function GzipLines(n: nat): seq<Line> {
    [Line("Content-Encoding", "gzip"), Line("Content-Length", Decimal(n))]
  }

  lemma DigitsAreContent(s: Bytes)
    requires AllDigits(s, 10)
    ensures HeaderSection.Content(s) && Strip(s, StrSpace) == s
  {
    forall i | 0 <= i < |s| ensures '0' <= s[i] <= '9' {
      assert DigitValue(s[i]) < 10;
    }
    StripIdentity(s, StrSpace);
  }

  lemma GzipTokens()
    ensures IsToken("Content-Encoding") && IsToken("Content-Length")
  {
  }

  lemma GzipWord()
    ensures HeaderSection.Content("gzip") && Strip("gzip", StrSpace) == "gzip" && Lower("gzip") == "gzip"
  {
    StripIdentity("gzip", StrSpace);
  }

  lemma LowerEncoding()
    ensures Lower("Content-Encoding") == "content-encoding"
  {
  }

  lemma LowerLength()
    ensures Lower("Content-Length") == "content-length"
  {
  }

  lemma LowerTransfer()
    ensures Lower("Transfer-Encoding") == "transfer-encoding"
  {
  }

  lemma GzipFieldsRaw(n: nat)
    ensures forall r :: r in GzipFields(n) ==> HeaderSection.IsRaw(r)
  {
    hide IsToken, HeaderSection.Content;
    GzipTokens();
    GzipWord();
    DigitsAreContent(Decimal(n));
  }

  lemma GzipFieldsRead(n: nat)
    ensures HeaderLines([], HeaderSection.RenderAll(GzipFields(n))) == Parsed(FromLines(GzipLines(n)))
  {
    hide HeaderLines, HeaderLine, AddLine, FromLines, HeaderSection.Render, HeaderSection.IsRaw,
         HeaderSection.Shaped, IsToken, Strip, Decimal;
    GzipWord();
    GzipFieldsRaw(n);
    HeaderSection.RawsShaped(GzipFields(n));
    GzipTokens();
    HeaderSection.TokenStays("Content-Encoding");
    HeaderSection.TokenStays("Content-Length");
    DigitsAreContent(Decimal(n));
    var raws, lines := GzipFields(n), GzipLines(n);
    assert raws[1..] == [raws[1]] && raws[1..][1..] == [];
    HeaderSection.FromLinesNone();
    HeaderSection.ReadFirst([], raws);
    HeaderSection.FieldReads([], raws[0]);
    HeaderSection.FromLinesSnoc([], lines[0]);
    assert [] + [lines[0]] == [lines[0]];
    HeaderSection.ReadFirst(FromLines([lines[0]]), raws[1..]);
    HeaderSection.FieldReads(FromLines([lines[0]]), raws[1]);
    HeaderSection.FromLinesSnoc([lines[0]], lines[1]);
    assert [lines[0]] + [lines[1]] == lines;
    HeaderSection.NothingToRead(FromLines(lines));
  }

  lemma GzipValues(n: nat, name: Bytes)
    ensures Get(FromLines(GzipLines(n)), name) ==
      if Lower(name) == "content-encoding" then Some("gzip")
      else if Lower(name) == "content-length" then Some(Decimal(n))
      else None
  {
    hide Decimal, Lower, FromLines;
    LowerEncoding();
    LowerLength();
    var lines, key := GzipLines(n), Lower(name);
    GetListIsFilter(lines, name);
    assert lines[..1] == [lines[0]] && [lines[0]][..0] == [];
    assert Matching([], key) == [];
    assert Matching([lines[0]], key) == if key == "content-encoding" then ["gzip"] else [];
    assert Matching(lines, key) ==
      if key == "content-encoding" then ["gzip"] else if key == "content-length" then [Decimal(n)] else [];
  }

  lemma GzipFraming(n: nat, m: StatusLine)
    requires m.code == 200
    ensures var s := HeadOf(m, FromLines(GzipLines(n)), []); ResolveFraming(s) == Ok(s.(contentLength := Some(n)))
    ensures SaysGzip(FromLines(GzipLines(n)))
  {
    hide Get, Decimal, FromLines, ParseInt, Strip, Lower;
    GzipWord();
    LowerEncoding();
    LowerLength();
    LowerTransfer();
    GzipValues(n, "Transfer-Encoding");
    GzipValues(n, "Content-Encoding");
    GzipValues(n, "Content-Length");
    DigitsAreContent(Decimal(n));
    DecimalRoundTrip(n);
  }

  lemma {:induction false} RawIsLine(r: HeaderSection.Raw)
    requires HeaderSection.IsRaw(r)
    ensures IsLine(HeaderSection.Render(r))
  {
    var line := HeaderSection.Render(r);
    match r {
      case Field(name, before, value, after) =>
        forall i | 0 <= i < |name| ensures name[i] != '\r' {
          assert TChar(name[i]);
        }
      case Continuation(before, text, after) =>
    }
    NoLineEnd(line);
  }

  lemma {:induction false} RawsAreLines(raws: seq<HeaderSection.Raw>)
    requires forall r :: r in raws ==> HeaderSection.IsRaw(r)
    ensures forall l :: l in HeaderSection.RenderAll(raws) ==> IsLine(l)
  {
    hide HeaderSection.IsRaw, HeaderSection.Render, IsLine;
    if raws == [] {
    } else {
      RawIsLine(raws[0]);
      RawsAreLines(raws[1..]);
    }
  }

  /**
   * Three bytes of a gzip stream received of any longer length announced, then the end of the stream: the parser,
   * in a body that is not chunked, raises an error that is not its own instead of finalizing with what it has.
   */
  lemma CutGzipRaises(codec: Codec, n: nat, third: Byte)
    requires CutHeadersEscape(codec) && n > 3
    ensures var d := RenderHead(CUT_STATUS, HeaderSection.RenderAll(GzipFields(n))) + (GZIP_MAGIC + [third]);
      && Feed(codec, INIT, d).Ok?
      && var s := Feed(codec, INIT, d).state;
         && s.phase == Body && !s.chunked && s.body == GZIP_MAGIC + [third]
         && FeedEof(codec, s) == Failed(DecompressionEscaped)
  {
    var body := GZIP_MAGIC + [third];
    assert codec.gunzip(body).Escaped?;
    hide *;
    CutLineEnds();
    CutStatusLine();
    GzipFieldsRaw(n);
    GzipFieldsRead(n);
    RawsAreLines(GzipFields(n));
    GzipFraming(n, StatusLine("HTTP/1.1", 200, "OK"));
    CutGzipFrom(codec, CUT_STATUS, HeaderSection.RenderAll(GzipFields(n)), n, body);
  }

  lemma CutGzipFrom(codec: Codec, status: Bytes, lines: seq<Bytes>, n: nat, body: Bytes)
    requires Find(status, CRLF) == -1 && MatchStatusLine(status).Some?
    requires forall l :: l in lines ==> IsLine(l)
    requires HeaderLines([], lines).Parsed? && Announces(status, lines, n)
    requires SaysGzip(HeaderLines([], lines).store) && 0 < |body| < n && codec.gunzip(body).Escaped?
    ensures var d := RenderHead(status, lines) + body;
      && Feed(codec, INIT, d).Ok?
      && var s := Feed(codec, INIT, d).state;
         && s.phase == Body && !s.chunked && s.body == body && FeedEof(codec, s) == Failed(DecompressionEscaped)
  {
    hide Feed, FeedEof, MatchStatusLine, HeaderLines, RenderHead, SaysGzip, ResolveFraming, Announces, AfterHead,
         Recode, ParseFixedLength;
    var d := RenderHead(status, lines) + body;
    var s := HeadOf(MatchStatusLine(status).value, HeaderLines([], lines).store, body)
             .(contentLength := Some(n), phase := Body);
    AnnouncedState(status, lines, n, body);
    GzipLength(codec, status, lines, n, body);
    PlainShort(codec, d, s);
  }

  lemma PlainShort(codec: Codec, message: Bytes, s: State)
    requires AfterHead(message) == Ok(s) && s.phase == Body && !s.chunked && s.contentLength.Some?
    requires s.contentLength.value > |s.buf|
    ensures var r := Feed(codec, INIT, message);
      r.Ok? && r.state.phase == Body && !r.state.chunked && r.state.body == s.buf
  {
    hide Parse, AfterHead, ParseFixedLength, Decompress;
    ViaHead(PLAIN, message);
    FixedPlain(s);
    RunRecodes(codec, message, false);
    FramedResponse(Feed(PLAIN, INIT, message).state);
  }
}
