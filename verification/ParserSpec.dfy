/** The response parser as a pure function on its state: what one `_parse` pass computes. */
module ParserSpec {
  import opened ByteStrings
  import opened PyInt
  import opened HeaderMap

  datatype Phase = Status | Head | Body | Done

  datatype Response = Response(code: nat, reason: Bytes, version: Bytes, headers: Store, content: Bytes)

  /** One constructor for each `raise` in the module, with the data its message shows. */
  datatype HttpError =
    | EofBeforeStatusLine
    | MalformedStatusLine(line: Bytes)
    | EofInsideHeaders
    | ContinuationWithoutHeader
    | MalformedHeaderLine(line: Bytes)
    | InvalidContentLength(text: Bytes)
    | EofInsideChunkSize
    | InvalidChunkSize(line: Bytes)
    | EofInsideChunkData
    | EofBeforeChunkTerminator
    | MissingChunkTerminator
    | DecompressionEscaped

  /** A library decompressor: a result, an error `_decompress` catches, or one (EOFError) that it does not. */
  datatype Inflated = Inflated(data: Bytes) | Caught | Escaped

  datatype Codec = Codec(gunzip: Bytes -> Inflated, zlib: Bytes -> Inflated, raw: Bytes -> Inflated)

  datatype State = State(
    buf: Bytes,
    phase: Phase,
    eof: bool,
    version: Bytes,
    code: nat,
    reason: Bytes,
    headers: Store,
    chunked: bool,
    contentLength: Option<int>,
    untilClose: bool,
    body: Bytes,
    chunkRemaining: int,
    awaitingSize: bool,
    inTrailers: bool,
    response: Option<Response>
  )

  const INIT := State([], Status, false, [], 0, [], [], false, None, false, [], 0, true, false, None)

  datatype Outcome = Ok(state: State) | Failed(error: HttpError)

  function Min(a: int, b: int): int {
    if a < b then a else b
  }

  // Status line.

  datatype StatusLine = StatusLine(version: Bytes, code: nat, reason: Bytes)

  predicate Digit(c: Byte) {
    '0' <= c <= '9'
  }

  /** The optional third group of the status-line expression: `.` excludes LF, `$` allows one final LF. */
  function MatchReason(rest: Bytes): Option<Bytes> {
    if rest == [] || rest == ['\n'] then Some([])
    else if rest[0] != ' ' then None
    else
      var lf := Find(rest, ['\n']);
      if lf == -1 then Some(rest[1..])
      else if lf == |rest| - 1 then Some(rest[1..lf])
      else None
  }

  function MatchStatusLine(line: Bytes): Option<StatusLine> {
    if !(|line| >= 12 && line[..5] == "HTTP/" && Digit(line[5]) && line[6] == '.' && Digit(line[7])
         && line[8] == ' ' && Digit(line[9]) && Digit(line[10]) && Digit(line[11])) then None
    else
      match MatchReason(line[12..])
      case None => None
      case Some(reason) => Some(StatusLine(line[..8], Value(line[9..12], 10), reason))
  }

  function ParseStatusLine(s: State): Outcome {
    var i := Find(s.buf, CRLF);
    if i == -1 then
      if s.eof && s.buf != [] then Failed(EofBeforeStatusLine) else Ok(s)
    else
      match MatchStatusLine(s.buf[..i])
      case None => Failed(MalformedStatusLine(s.buf[..i]))
      case Some(m) =>
        Ok(s.(buf := s.buf[i + 2..], version := m.version, code := m.code, reason := m.reason, phase := Head))
  }

  // Header block.

  datatype HeaderResult = Parsed(store: Store) | Rejected(error: HttpError)

  function HeaderLine(store: Store, raw: Bytes): HeaderResult {
    if raw == [] then Parsed(store)
    else if raw[0] == ' ' || raw[0] == '\t' then
      if Items(store) == [] then Rejected(ContinuationWithoutHeader)
      else Parsed(AppendToLast(store, Strip(raw, AsciiSpace)).value)
    else
      var colon := Find(raw, [':']);
      if colon <= 0 then Rejected(MalformedHeaderLine(raw))
      else Parsed(AddLine(store, Line(Strip(raw[..colon], StrSpace), Strip(raw[colon + 1..], StrSpace))))
  }

  function HeaderLines(store: Store, raws: seq<Bytes>): HeaderResult
    decreases |raws|
  {
    if raws == [] then Parsed(store)
    else
      match HeaderLine(store, raws[0])
      case Rejected(e) => Rejected(e)
      case Parsed(store') => HeaderLines(store', raws[1..])
  }

  datatype Block = NoBlock | Block(text: Bytes, rest: Bytes)

  /** Everything up to the blank line that ends the header section, if that line has arrived. */
  function HeaderBlock(buf: Bytes): Block {
    if CRLF <= buf then Block([], buf[2..])
    else
      var end := Find(buf, BLANK);
      if end == -1 then NoBlock else Block(buf[..end], buf[end + 4..])
  }

  function ResolveFraming(s: State): Outcome {
    var te := Get(s.headers, "Transfer-Encoding");
    if te.Some? && Contains(Lower(te.value), "chunked") then Ok(s.(chunked := true))
    else if s.code < 200 || s.code == 204 || s.code == 304 then Ok(s.(contentLength := Some(0)))
    else
      match Get(s.headers, "Content-Length")
      case None => Ok(s.(untilClose := true))
      case Some(text) =>
        match ParseInt(Strip(text, StrSpace), 10)
        case None => Failed(InvalidContentLength(text))
        case Some(n) => Ok(s.(contentLength := Some(n)))
  }

  /** `_parse_headers` up to its own call of `_parse_body`. */
  function ParseHead(s: State): Outcome {
    match HeaderBlock(s.buf)
    case NoBlock => if s.eof && s.buf != [] then Failed(EofInsideHeaders) else Ok(s)
    case Block(text, rest) =>
      match HeaderLines(s.headers, SplitLines(text))
      case Rejected(e) => Failed(e)
      case Parsed(store) =>
        match ResolveFraming(s.(buf := rest, headers := store))
        case Failed(e) => Failed(e)
        case Ok(s') => Ok(s'.(phase := Body))
  }

  // Body.

  /** None where an exception escapes. */
  function Decompress(codec: Codec, headers: Store, data: Bytes): Option<Bytes> {
    var encoding := Get(headers, "Content-Encoding");
    if encoding.None? || encoding.value == [] || data == [] then Some(data)
    else
      var name := Strip(Lower(encoding.value), StrSpace);
      if name == "gzip" then FromInflated(codec.gunzip(data), data)
      else if name == "deflate" then
        var first := codec.zlib(data);
        FromInflated(if first.Caught? then codec.raw(data) else first, data)
      else Some(data)
  }

  function FromInflated(r: Inflated, data: Bytes): Option<Bytes> {
    match r
    case Inflated(out) => Some(out)
    case Caught => Some(data)
    case Escaped => None
  }

  function Finalize(codec: Codec, s: State): (r: Outcome)
    ensures r.Ok? ==> r.state.buf == s.buf
  {
    match Decompress(codec, s.headers, s.body)
    case None => Failed(DecompressionEscaped)
    case Some(content) =>
      Ok(s.(response := Some(Response(s.code, s.reason, s.version, s.headers, content)), phase := Done))
  }

  function Take(s: State, n: nat): State
    requires n <= |s.buf|
  {
    s.(body := s.body + s.buf[..n], buf := s.buf[n..])
  }

  function TakeNeeded(s: State): State
    requires s.contentLength.Some?
  {
    var need := s.contentLength.value - |s.body|;
    if need > 0 then Take(s, Min(need, |s.buf|)) else s
  }

  function ParseFixedLength(codec: Codec, s: State): Outcome
    requires s.contentLength.Some?
  {
    var s' := TakeNeeded(s);
    if |s'.body| >= s.contentLength.value || s.eof then Finalize(codec, s') else Ok(s')
  }

  function ParseUntilClose(codec: Codec, s: State): Outcome {
    var s' := Take(s, |s.buf|);
    if s.eof then Finalize(codec, s') else Ok(s')
  }

  /** One iteration of the chunked loop: `Stop` is a return, `Next` goes round again. */
  datatype Turn = Stop(outcome: Outcome) | Next(state: State)

  /** A turn that goes round again has deleted two bytes or more. */
  predicate Consumes(s: State, t: Turn) {
    match t
    case Next(s') => |s'.buf| + 2 <= |s.buf|
    case Stop(Ok(s')) => |s'.buf| <= |s.buf|
    case Stop(Failed(_)) => true
  }

  function TrailerTurn(codec: Codec, s: State): (t: Turn)
    ensures Consumes(s, t)
  {
    var end := Find(s.buf, BLANK);
    if CRLF <= s.buf then Stop(Finalize(codec, s.(buf := s.buf[2..])))
    else if end == -1 then Stop(if s.eof then Finalize(codec, s) else Ok(s))
    else Stop(Finalize(codec, s.(buf := s.buf[end + 4..])))
  }

  function SizeToken(line: Bytes): Bytes {
    var semi := Find(line, [';']);
    Strip(if semi == -1 then line else line[..semi], AsciiSpace)
  }

  function SizeTurn(s: State): (t: Turn)
    ensures Consumes(s, t)
  {
    var i := Find(s.buf, CRLF);
    if i == -1 then Stop(if s.eof && s.buf != [] then Failed(EofInsideChunkSize) else Ok(s))
    else
      match ParseInt(SizeToken(s.buf[..i]), 16)
      case None => Stop(Failed(InvalidChunkSize(s.buf[..i])))
      case Some(n) =>
        var s' := s.(buf := s.buf[i + 2..]);
        if n == 0 then Next(s'.(inTrailers := true))
        else DataTurn(s'.(chunkRemaining := n, awaitingSize := false))
  }

  function TakeChunk(s: State): State {
    var take := if s.chunkRemaining > 0 then Min(s.chunkRemaining, |s.buf|) else 0;
    Take(s, take).(chunkRemaining := s.chunkRemaining - take)
  }

  function TerminatorTurn(s: State): (t: Turn)
    ensures Consumes(s, t)
  {
    if |s.buf| < 2 then Stop(if s.eof then Failed(EofBeforeChunkTerminator) else Ok(s))
    else if !(CRLF <= s.buf) then Stop(Failed(MissingChunkTerminator))
    else Next(s.(buf := s.buf[2..], awaitingSize := true))
  }

  function DataTurn(s: State): (t: Turn)
    ensures Consumes(s, t)
  {
    var s' := TakeChunk(s);
    if s'.chunkRemaining > 0 then Stop(if s.eof then Failed(EofInsideChunkData) else Ok(s'))
    else TerminatorTurn(s')
  }

  function ChunkTurn(codec: Codec, s: State): (t: Turn)
    ensures Consumes(s, t)
  {
    if s.inTrailers then TrailerTurn(codec, s)
    else if s.awaitingSize then SizeTurn(s)
    else DataTurn(s)
  }

  function ParseChunked(codec: Codec, s: State): Outcome
    decreases |s.buf|
  {
    match ChunkTurn(codec, s)
    case Stop(outcome) => outcome
    case Next(s') => ParseChunked(codec, s')
  }

  function ParseBody(codec: Codec, s: State): Outcome {
    if s.chunked then ParseChunked(codec, s)
    else if s.contentLength.Some? then ParseFixedLength(codec, s)
    else ParseUntilClose(codec, s)
  }

  // The driver.

  function BodyStage(codec: Codec, s: State): Outcome {
    if s.phase == Body then ParseBody(codec, s) else Ok(s)
  }

  /** `_parse_headers` ends with its own `_parse_body`; the driver then runs the body stage again. */
  function HeadStage(codec: Codec, s: State): Outcome {
    if s.phase == Head then
      match ParseHead(s)
      case Failed(e) => Failed(e)
      case Ok(s') => BodyStage(codec, s')
    else Ok(s)
  }

  function StatusStage(s: State): Outcome {
    if s.phase == Status then ParseStatusLine(s) else Ok(s)
  }

  function Parse(codec: Codec, s: State): Outcome {
    match StatusStage(s)
    case Failed(e) => Failed(e)
    case Ok(s1) =>
      match HeadStage(codec, s1)
      case Failed(e) => Failed(e)
      case Ok(s2) => BodyStage(codec, s2)
  }

  function More(s: State, data: Bytes): State {
    s.(buf := s.buf + data)
  }

  function Feed(codec: Codec, s: State, data: Bytes): Outcome {
    Parse(codec, More(s, data))
  }

  function FeedEof(codec: Codec, s: State): Outcome {
    Parse(codec, s.(eof := true))
  }

  /** Errors are final: the client drops a parser that has raised. */
  function FeedAll(codec: Codec, s: State, chunks: seq<Bytes>): Outcome
    decreases |chunks|
  {
    if chunks == [] then Ok(s)
    else
      match Feed(codec, s, chunks[0])
      case Failed(e) => Failed(e)
      case Ok(s') => FeedAll(codec, s', chunks[1..])
  }

  function ThenEof(codec: Codec, r: Outcome): Outcome {
    match r
    case Failed(e) => Failed(e)
    case Ok(s) => FeedEof(codec, s)
  }
}
