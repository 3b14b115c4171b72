/** The incremental response parser: fields updated in place, resumed by every `feed`. */
module HttpParser {
  import opened ByteStrings
  import opened PyInt
  import opened HeaderMap
  import opened ParserSpec
  import opened Segmentation

  /** Turns of the chunked loop in one call, and what they cost: every turn but the last deletes two bytes or more. */
  function Turns(codec: Codec, s: State): (n: nat)
    decreases |s.buf|
  {
    match ChunkTurn(codec, s)
    case Stop(_) => 1
    case Next(s') => 1 + Turns(codec, s')
  }

  lemma {:induction false} TurnsBound(codec: Codec, s: State)
    ensures 2 * Turns(codec, s) <= |s.buf| + 2
    ensures ParseChunked(codec, s).Ok? ==>
      2 * Turns(codec, s) + |ParseChunked(codec, s).state.buf| <= |s.buf| + 2
    decreases |s.buf|
  {
    match ChunkTurn(codec, s)
    case Stop(_) =>
    case Next(s') => TurnsBound(codec, s');
  }

  lemma Unroll(codec: Codec, s: State)
    ensures match ChunkTurn(codec, s)
      case Stop(r) => ParseChunked(codec, s) == r && Turns(codec, s) == 1
      case Next(s') => ParseChunked(codec, s) == ParseChunked(codec, s') && Turns(codec, s) == 1 + Turns(codec, s')
  {
  }

  /** The body stage runs twice in the one pass that completes the header section. */
  function Past(phase: Phase): nat {
    if phase == Status || phase == Head then 0 else 2
  }

  /** How a call ended: normally in state `s`, or with an exception. */
  function Report(err: Option<HttpError>, s: State): Outcome {
    match err
    case None => Ok(s)
    case Some(e) => Failed(e)
  }

  class ResponseParser {
    const codec: Codec
    const headers: Headers
    var buf: Bytes
    var phase: Phase
    var eof: bool
    var version: Bytes
    var code: nat
    var reason: Bytes
    var chunked: bool
    var contentLength: Option<int>
    var untilClose: bool
    var body: Bytes
    var chunkRemaining: int
    var awaitingSize: bool
    var inTrailers: bool
    var response: Option<Response>

    ghost var fed: Bytes  // every byte fed so far
    ghost var calls: nat  // completed calls of feed and feed_eof
    ghost var turns: nat  // turns of the chunked loop over the parser's whole life

    ghost function Abs(): State
      reads this, headers
    {
      State(buf, phase, eof, version, code, reason, headers.store, chunked, contentLength, untilClose,
            body, chunkRemaining, awaitingSize, inTrailers, response)
    }

    /** The state is a function of the bytes fed, not of how they were cut; and so much work has been done. */
    ghost predicate Valid()
      reads this, headers
    {
      && (!eof ==> ParserSpec.Feed(codec, INIT, fed) == Ok(Abs()))
      && 2 * turns + |buf| <= |fed| + 2 * calls + Past(phase)
    }

    constructor (codec: Codec)
      ensures Valid() && Abs() == INIT && fresh(headers)
      ensures fed == [] && this.codec == codec && calls == turns == 0
    {
      this.codec := codec;
      headers := new Headers();
      buf, phase, eof := [], Status, false;
      version, code, reason := [], 0, [];
      chunked, contentLength, untilClose := false, None, false;
      body := [];
      chunkRemaining, awaitingSize, inTrailers := 0, true, false;
      response := None;
      fed, calls, turns := [], 0, 0;
      new;
      InitQuiescent(codec);
    }

    method Feed(data: Bytes) returns (err: Option<HttpError>)
      requires Valid()
      modifies this, headers
      ensures Report(err, Abs()) == ParserSpec.Feed(codec, old(Abs()), data)
      ensures fed == old(fed) + data && eof == old(eof)
      ensures !eof ==> Report(err, Abs()) == ParserSpec.Feed(codec, INIT, fed)
      ensures err.None? ==> Valid()
      ensures 2 * turns <= |fed| + 2 * calls + 2 && calls == old(calls) + 1
    {
      if data != [] {
        buf := buf + data;
      }
      fed := fed + data;
      assert Abs() == More(old(Abs()), data);
      err := Run();
      if !old(eof) {
        FeedSplit(codec, INIT, old(fed), data);
      }
    }

    method FeedEof() returns (err: Option<HttpError>)
      requires Valid()
      modifies this, headers
      ensures Report(err, Abs()) == ParserSpec.FeedEof(codec, old(Abs()))
      ensures fed == old(fed) && eof
      ensures !old(eof) ==> Report(err, Abs()) == ThenEof(codec, ParserSpec.Feed(codec, INIT, fed))
      ensures err.None? ==> Valid()
      ensures 2 * turns <= |fed| + 2 * calls + 2 && calls == old(calls) + 1
    {
      eof := true;
      err := Run();
    }

    method Run() returns (err: Option<HttpError>)
      modifies this, headers
      ensures Report(err, Abs()) == Parse(codec, old(Abs()))
      ensures fed == old(fed) && eof == old(eof) && calls == old(calls) + 1
      ensures err.None? ==> 2 * turns + |buf| <= 2 * old(turns) + |old(buf)| + 2 + Past(phase) - Past(old(phase))
      ensures 2 * turns <= 2 * old(turns) + |old(buf)| + 4 - Past(old(phase))
    {
      calls := calls + 1;
      err := None;
      if phase == Status {
        err := StatusLineStep();
        if err.Some? {
          return;
        }
      }
      if phase == Head {
        err := HeadersStep();
        if err.Some? {
          return;
        }
      }
      if phase == Body {
        err := BodyStep();
      }
    }

    method StatusLineStep() returns (err: Option<HttpError>)
      modifies this
      ensures Report(err, Abs()) == ParseStatusLine(old(Abs()))
      ensures |buf| <= |old(buf)| && (err.None? ==> phase == Head || (phase == old(phase) && buf == old(buf)))
      ensures fed == old(fed) && eof == old(eof) && calls == old(calls) && turns == old(turns)
    {
      hide MatchStatusLine, At, Find;
      var i := Find(buf, CRLF);
      if i == -1 {
        return if eof && buf != [] then Some(EofBeforeStatusLine) else None;
      }
      var line := buf[..i];
      buf := buf[i + 2..];
      match MatchStatusLine(line) {
        case None => return Some(MalformedStatusLine(line));
        case Some(m) =>
          version, code, reason := m.version, m.code, m.reason;
          phase := Head;
          return None;
      }
    }

    method HeadersStep() returns (err: Option<HttpError>)
      requires phase == Head
      modifies this, headers
      ensures Report(err, Abs()) == HeadStage(codec, old(Abs()))
      ensures fed == old(fed) && eof == old(eof) && calls == old(calls)
      ensures err.None? ==> 2 * turns + |buf| <= 2 * old(turns) + |old(buf)| + (if phase == Head then 0 else 2)
      ensures err.None? ==> phase != Status
      ensures 2 * turns <= 2 * old(turns) + |old(buf)| + 2
    {
      hide ParseHead, ParseBody;
      err := HeadOnlyStep();
      if err.None? && phase == Body {
        err := BodyStep();
      }
    }

    method HeadOnlyStep() returns (err: Option<HttpError>)
      requires phase == Head
      modifies this, headers
      ensures Report(err, Abs()) == ParseHead(old(Abs()))
      ensures fed == old(fed) && eof == old(eof) && calls == old(calls) && turns == old(turns)
      ensures |buf| <= |old(buf)| && (err.None? ==> phase == Head || phase == Body)
    {
      hide HeaderBlock, HeaderLines, ResolveFraming, SplitLines;
      var block := TakeBlock();
      if block.None? {
        return if eof && buf != [] then Some(EofInsideHeaders) else None;
      }
      ghost var s := Abs();
      err := HeaderBlockStep(block.value);
      if err.Some? {
        return;
      }
      assert Abs() == s.(headers := headers.store);
      err := FramingStep();
      if err.None? {
        phase := Body;
      }
    }

    /** Deletes the header block and its blank line from the buffer, once both have arrived. */
    method TakeBlock() returns (block: Option<Bytes>)
      modifies this`buf
      ensures match HeaderBlock(old(buf))
        case NoBlock => block == None && buf == old(buf)
        case Block(text, rest) => block == Some(text) && buf == rest && |buf| + 2 <= |old(buf)|
    {
      if CRLF <= buf {
        buf := buf[2..];
        return Some([]);
      }
      var end := Find(buf, BLANK);
      if end == -1 {
        return None;
      }
      block := Some(buf[..end]);
      buf := buf[end + 4..];
    }

    method HeaderBlockStep(block: Bytes) returns (err: Option<HttpError>)
      modifies headers
      ensures match HeaderLines(old(headers.store), SplitLines(block))
        case Rejected(e) => err == Some(e)
        case Parsed(store) => err == None && headers.store == store
    {
      hide At, Find, Strip, AddLine, SplitLines, FoldLast;
      var raws := SplitLines(block);
      for i := 0 to |raws|
        invariant HeaderLines(old(headers.store), raws) == HeaderLines(headers.store, raws[i..])
      {
        var raw := raws[i];
        assert raws[i..][0] == raw && raws[i..][1..] == raws[i + 1..];
        if raw == [] {
          continue;
        }
        if raw[0] == ' ' || raw[0] == '\t' {
          var items := headers.AllItems();
          if items == [] {
            return Some(ContinuationWithoutHeader);
          }
          var _ := headers.AppendLast(Strip(raw, AsciiSpace));
          continue;
        }
        var colon := Find(raw, [':']);
        if colon <= 0 {
          return Some(MalformedHeaderLine(raw));
        }
        headers.Add(Strip(raw[..colon], StrSpace), Strip(raw[colon + 1..], StrSpace));
      }
      return None;
    }

    method FramingStep() returns (err: Option<HttpError>)
      modifies this
      ensures Report(err, Abs()) == ResolveFraming(old(Abs())) && buf == old(buf)
      ensures fed == old(fed) && eof == old(eof) && calls == old(calls) && turns == old(turns)
    {
      hide Get, Contains, Strip, ParseInt;
      var te := Get(headers.store, "Transfer-Encoding");
      if te.Some? && Contains(Lower(te.value), "chunked") {
        chunked := true;
        return None;
      }
      if code < 200 || code == 204 || code == 304 {
        contentLength := Some(0);
        return None;
      }
      var cl := Get(headers.store, "Content-Length");
      if cl.Some? {
        var n := ParseInt(Strip(cl.value, StrSpace), 10);
        if n.None? {
          return Some(InvalidContentLength(cl.value));
        }
        contentLength := n;
        return None;
      }
      untilClose := true;
      return None;
    }

    method BodyStep() returns (err: Option<HttpError>)
      modifies this
      ensures Report(err, Abs()) == ParseBody(codec, old(Abs()))
      ensures fed == old(fed) && eof == old(eof) && calls == old(calls)
      ensures err.None? ==> 2 * turns + |buf| <= 2 * old(turns) + |old(buf)| + 2
      ensures err.None? ==> phase == old(phase) || phase == Done
      ensures 2 * turns <= 2 * old(turns) + |old(buf)| + 2
    {
      hide ParseChunked, ParseFixedLength, ParseUntilClose, Turns;
      if chunked {
        TurnsBound(codec, Abs());
        err := ChunkedStep();
      } else if contentLength.Some? {
        err := FixedLengthStep();
      } else {
        err := UntilCloseStep();
      }
    }

    method FixedLengthStep() returns (err: Option<HttpError>)
      requires contentLength.Some?
      modifies this
      ensures Report(err, Abs()) == ParseFixedLength(codec, old(Abs()))
      ensures |buf| <= |old(buf)| && (err.None? ==> phase == old(phase) || phase == Done)
      ensures fed == old(fed) && eof == old(eof) && calls == old(calls) && turns == old(turns)
    {
      var need := contentLength.value - |body|;
      if need > 0 {
        var take := Min(need, |buf|);
        body := body + buf[..take];
        buf := buf[take..];
      }
      if |body| >= contentLength.value {
        err := FinalizeStep();
      } else if eof {
        err := FinalizeStep();
      } else {
        err := None;
      }
    }

    method UntilCloseStep() returns (err: Option<HttpError>)
      modifies this
      ensures Report(err, Abs()) == ParseUntilClose(codec, old(Abs()))
      ensures |buf| <= |old(buf)| && (err.None? ==> phase == old(phase) || phase == Done)
      ensures fed == old(fed) && eof == old(eof) && calls == old(calls) && turns == old(turns)
    {
      if buf != [] {
        body := body + buf;
        buf := [];
      }
      assert Abs() == Take(old(Abs()), |old(buf)|);
      if eof {
        err := FinalizeStep();
      } else {
        err := None;
      }
    }

    method ChunkedStep() returns (err: Option<HttpError>)
      modifies this
      ensures Report(err, Abs()) == ParseChunked(codec, old(Abs()))
      ensures turns == old(turns) + Turns(codec, old(Abs()))
      ensures fed == old(fed) && eof == old(eof) && calls == old(calls)
      ensures err.None? ==> phase == old(phase) || phase == Done
    {
      hide ParseChunked, Turns, TrailerTurn, SizeTurn, DataTurn;
      while true
        invariant ParseChunked(codec, old(Abs())) == ParseChunked(codec, Abs())
        invariant turns + Turns(codec, Abs()) == old(turns) + Turns(codec, old(Abs()))
        invariant fed == old(fed) && eof == old(eof) && calls == old(calls) && phase == old(phase)
        decreases |buf|
      {
        Unroll(codec, Abs());
        turns := turns + 1;
        var again := false;
        if inTrailers {
          err := TrailerStep();
        } else if awaitingSize {
          err, again := SizeStep();
        } else {
          err, again := DataStep();
        }
        if !again {
          return;
        }
      }
    }

    method TrailerStep() returns (err: Option<HttpError>)
      modifies this
      ensures TrailerTurn(codec, old(Abs())) == Stop(Report(err, Abs()))
      ensures fed == old(fed) && eof == old(eof) && calls == old(calls) && turns == old(turns)
      ensures err.None? ==> phase == old(phase) || phase == Done
    {
      hide At, Find, Finalize;
      var end := Find(buf, BLANK);
      if CRLF <= buf {
        buf := buf[2..];
        err := FinalizeStep();
        return;
      }
      if end == -1 {
        err := None;
        if eof {
          err := FinalizeStep();
        }
        return;
      }
      buf := buf[end + 4..];
      err := FinalizeStep();
    }

    method SizeStep() returns (err: Option<HttpError>, again: bool)
      modifies this
      ensures SizeTurn(old(Abs())) == if again then Next(Abs()) else Stop(Report(err, Abs()))
      ensures fed == old(fed) && eof == old(eof) && calls == old(calls) && turns == old(turns) && phase == old(phase)
    {
      hide At, Find, ParseInt, SizeToken, DataTurn;
      var i := Find(buf, CRLF);
      if i == -1 {
        return if eof && buf != [] then Some(EofInsideChunkSize) else None, false;
      }
      var line := buf[..i];
      var size := ParseInt(SizeToken(line), 16);
      if size.None? {
        return Some(InvalidChunkSize(line)), false;
      }
      buf := buf[i + 2..];
      if size.value == 0 {
        inTrailers := true;
        return None, true;
      }
      chunkRemaining := size.value;
      awaitingSize := false;
      err, again := DataStep();
    }

    method DataStep() returns (err: Option<HttpError>, again: bool)
      modifies this
      ensures DataTurn(old(Abs())) == if again then Next(Abs()) else Stop(Report(err, Abs()))
      ensures fed == old(fed) && eof == old(eof) && calls == old(calls) && turns == old(turns) && phase == old(phase)
    {
      ghost var s := Abs();
      if chunkRemaining > 0 {
        var take := Min(chunkRemaining, |buf|);
        body := body + buf[..take];
        buf := buf[take..];
        chunkRemaining := chunkRemaining - take;
      }
      assert Abs() == TakeChunk(s);
      if chunkRemaining > 0 {
        return if eof then Some(EofInsideChunkData) else None, false;
      }
      if |buf| < 2 {
        return if eof then Some(EofBeforeChunkTerminator) else None, false;
      }
      if !(CRLF <= buf) {
        return Some(MissingChunkTerminator), false;
      }
      buf := buf[2..];
      awaitingSize := true;
      return None, true;
    }

    method FinalizeStep() returns (err: Option<HttpError>)
      modifies this
      ensures Report(err, Abs()) == Finalize(codec, old(Abs()))
      ensures buf == old(buf) && (err.None? ==> phase == Done)
      ensures fed == old(fed) && eof == old(eof) && calls == old(calls) && turns == old(turns)
    {
      match Decompress(codec, headers.store, body) {
        case None => return Some(DecompressionEscaped);
        case Some(content) =>
          response := Some(Response(code, reason, version, headers.store, content));
          phase := Done;
          return None;
      }
    }
  }
}
