/** What holds of every state the parser can be in: bytes kept, phases ordered, one framing, and the EOF rules. */
module Framing {
  import opened ByteStrings
  import HeaderMap
  import opened ParserSpec
  import opened Segmentation

  predicate Suffix(a: Bytes, b: Bytes) {
    |a| <= |b| && a == b[|b| - |a|..]
  }

  lemma SuffixTrans(a: Bytes, b: Bytes, c: Bytes)
    requires Suffix(a, b) && Suffix(b, c)
    ensures Suffix(a, c)
  {
    var n, m := |b| - |a|, |c| - |b|;
    assert c[m..][n..] == c[m + n..];
  }

  function Rank(phase: Phase): nat {
    match phase
    case Status => 0
    case Head => 1
    case Body => 2
    case Done => 3
  }

  function Modes(s: State): nat {
    (if s.chunked then 1 else 0) + (if s.contentLength.Some? then 1 else 0) + (if s.untilClose then 1 else 0)
  }

  /** No framing until the header section ends, exactly one from then on; a response exactly when done. */
  predicate Framed(s: State) {
    && Modes(s) == (if Rank(s.phase) < 2 then 0 else 1)
    && (s.response.Some? <==> s.phase == Done)
    && (Rank(s.phase) < 2 ==> s.body == [])
  }

  predicate SameHead(s: State, s': State) {
    && s'.version == s.version && s'.code == s.code && s'.reason == s.reason && s'.headers == s.headers
    && s'.chunked == s.chunked && s'.contentLength == s.contentLength && s'.untilClose == s.untilClose
  }

  /** One step forward: bytes leave the front of the buffer only, the phase never moves back, the body only grows. */
  predicate Advances(s: State, s': State) {
    && Suffix(s'.buf, s.buf)
    && Rank(s.phase) <= Rank(s'.phase)
    && s.body <= s'.body
    && s'.eof == s.eof
    && (2 <= Rank(s.phase) ==> SameHead(s, s'))
    && Framed(s')
  }

  lemma AdvancesTrans(s: State, s': State, s'': State)
    requires Advances(s, s') && Advances(s', s'')
    ensures Advances(s, s'')
  {
    SuffixTrans(s''.buf, s'.buf, s.buf);
  }

  lemma DropAdvances(s: State, s': State, n: nat)
    requires Framed(s) && n <= |s.buf|
    requires s' == s.(buf := s.buf[n..], chunkRemaining := s'.chunkRemaining, awaitingSize := s'.awaitingSize,
                      inTrailers := s'.inTrailers)
    ensures Advances(s, s')
  {
  }

  ghost predicate TurnForward(s: State, t: Turn) {
    match t
    case Next(s') => Advances(s, s') && s'.phase == Body
    case Stop(Ok(s')) => Advances(s, s')
    case Stop(Failed(_)) => true
  }

  lemma FinalizeAdvances(codec: Codec, s: State)
    requires Framed(s) && s.phase == Body
    ensures Finalize(codec, s).Ok? ==> Advances(s, Finalize(codec, s).state)
  {
    hide Decompress;
  }

  lemma TrailerAdvances(codec: Codec, s: State)
    requires Framed(s) && s.phase == Body
    ensures TurnForward(s, TrailerTurn(codec, s))
  {
    hide At, Find, Finalize;
    if CRLF <= s.buf {
      DropThenFinalize(codec, s, 2);
    } else if Find(s.buf, BLANK) != -1 {
      DropThenFinalize(codec, s, Find(s.buf, BLANK) + 4);
    } else {
      FinalizeAdvances(codec, s);
    }
  }

  lemma DropThenFinalize(codec: Codec, s: State, n: nat)
    requires Framed(s) && s.phase == Body && n <= |s.buf|
    ensures var r := Finalize(codec, s.(buf := s.buf[n..])); r.Ok? ==> Advances(s, r.state)
  {
    hide Finalize;
    var s' := s.(buf := s.buf[n..]);
    DropAdvances(s, s', n);
    FinalizeAdvances(codec, s');
    if Finalize(codec, s').Ok? {
      AdvancesTrans(s, s', Finalize(codec, s').state);
    }
  }

  lemma DataAdvances(s: State)
    requires Framed(s) && s.phase == Body
    ensures TurnForward(s, DataTurn(s))
  {
    var s' := TakeChunk(s);
    assert Advances(s, s');
    if s'.chunkRemaining <= 0 && CRLF <= s'.buf {
      var s'' := s'.(buf := s'.buf[2..], awaitingSize := true);
      DropAdvances(s', s'', 2);
      AdvancesTrans(s, s', s'');
    }
  }

  lemma SizeAdvances(s: State)
    requires Framed(s) && s.phase == Body
    ensures TurnForward(s, SizeTurn(s))
  {
    hide At, Find, PyInt.ParseInt, SizeToken, DataTurn;
    var i := Find(s.buf, CRLF);
    if i != -1 {
      var size := PyInt.ParseInt(SizeToken(s.buf[..i]), 16);
      if size.Some? {
        if size.value == 0 {
          DropAdvances(s, s.(buf := s.buf[i + 2..], inTrailers := true), i + 2);
        } else {
          var s' := s.(buf := s.buf[i + 2..], chunkRemaining := size.value, awaitingSize := false);
          DropAdvances(s, s', i + 2);
          DataAdvances(s');
          var t := DataTurn(s');
          if t.Next? {
            AdvancesTrans(s, s', t.state);
          } else if t.outcome.Ok? {
            AdvancesTrans(s, s', t.outcome.state);
          }
        }
      }
    }
  }

  lemma TurnAdvances(codec: Codec, s: State)
    requires Framed(s) && s.phase == Body
    ensures TurnForward(s, ChunkTurn(codec, s))
  {
    TrailerAdvances(codec, s);
    SizeAdvances(s);
    DataAdvances(s);
  }

  lemma {:induction false} ChunkedAdvances(codec: Codec, s: State)
    requires Framed(s) && s.phase == Body
    ensures ParseChunked(codec, s).Ok? ==> Advances(s, ParseChunked(codec, s).state)
    decreases |s.buf|
  {
    TurnAdvances(codec, s);
    match ChunkTurn(codec, s)
    case Stop(_) =>
    case Next(s') =>
      ChunkedAdvances(codec, s');
      if ParseChunked(codec, s').Ok? {
        AdvancesTrans(s, s', ParseChunked(codec, s').state);
      }
  }

  lemma BodyAdvances(codec: Codec, s: State)
    requires Framed(s)
    ensures BodyStage(codec, s).Ok? ==> Advances(s, BodyStage(codec, s).state)
  {
    hide Finalize, ParseChunked, Advances, Framed, Take, TakeNeeded;
    if s.phase == Body {
      if s.chunked {
        ChunkedAdvances(codec, s);
      } else {
        var s' := if s.contentLength.Some? then TakeNeeded(s) else Take(s, |s.buf|);
        TakeAdvances(s);
        FinalizeAdvances(codec, s');
        if Finalize(codec, s').Ok? {
          AdvancesTrans(s, s', Finalize(codec, s').state);
        }
      }
    } else {
      Stays(s);
    }
  }

  lemma Stays(s: State)
    requires Framed(s)
    ensures Advances(s, s)
  {
  }

  lemma TakeAdvances(s: State)
    requires Framed(s) && s.phase == Body
    ensures Advances(s, Take(s, |s.buf|)) && Framed(Take(s, |s.buf|)) && Take(s, |s.buf|).phase == Body
    ensures s.contentLength.Some? ==> Advances(s, TakeNeeded(s)) && Framed(TakeNeeded(s)) && TakeNeeded(s).phase == Body
  {
  }

  lemma HeadAdvances(s: State)
    requires Framed(s) && s.phase == Head
    ensures ParseHead(s).Ok? ==> Advances(s, ParseHead(s).state)
  {
    hide HeaderBlock, HeaderLines, SplitLines, ResolveFraming;
    BlockIsSuffix(s.buf);
    match HeaderBlock(s.buf)
    case NoBlock =>
    case Block(text, rest) =>
      match HeaderLines(s.headers, SplitLines(text))
      case Rejected(_) =>
      case Parsed(store) => FramingChosen(s.(buf := rest, headers := store));
  }

  lemma BlockIsSuffix(buf: Bytes)
    ensures HeaderBlock(buf).Block? ==> Suffix(HeaderBlock(buf).rest, buf)
  {
    hide At;
  }

  lemma FramingChosen(s: State)
    requires Framed(s) && s.phase == Head
    ensures ResolveFraming(s).Ok? ==>
      var s' := ResolveFraming(s).state;
      && Modes(s') == 1 && s'.buf == s.buf && s'.body == s.body && s'.eof == s.eof
      && s'.phase == s.phase && s'.response == s.response
  {
    hide HeaderMap.Get, Contains, Strip, PyInt.ParseInt;
  }

  lemma StatusAdvances(s: State)
    requires Framed(s)
    ensures StatusStage(s).Ok? ==> Advances(s, StatusStage(s).state)
  {
    hide At, Find, MatchStatusLine;
  }

  /**
   * Byte conservation and forward progress: one pass removes bytes from the front of the buffer only, never
   * moves the phase back, and never changes the head or the framing once the header section has ended.
   */
  lemma ParseAdvances(codec: Codec, s: State)
    requires Framed(s)
    ensures Parse(codec, s).Ok? ==> Advances(s, Parse(codec, s).state)
  {
    hide ParseStatusLine, ParseHead, ParseBody;
    StatusAdvances(s);
    if StatusStage(s).Ok? {
      var s1 := StatusStage(s).state;
      if s1.phase == Head {
        HeadAdvances(s1);
        if ParseHead(s1).Ok? {
          var s2 := ParseHead(s1).state;
          AdvancesTrans(s, s1, s2);
          BodyAdvances(codec, s2);
          if BodyStage(codec, s2).Ok? {
            var s3 := BodyStage(codec, s2).state;
            AdvancesTrans(s, s2, s3);
            BodyAdvances(codec, s3);
            if BodyStage(codec, s3).Ok? {
              AdvancesTrans(s, s3, BodyStage(codec, s3).state);
            }
          }
        }
      } else {
        BodyAdvances(codec, s1);
        if BodyStage(codec, s1).Ok? {
          AdvancesTrans(s, s1, BodyStage(codec, s1).state);
        }
      }
    }
  }

  /**
   * Over the life of a parser: what is buffered is the unconsumed end of what was fed, the consumed prefix and
   * the body only grow, the phase only advances, and the one framing chosen when the headers end never changes.
   */
  lemma Conservation(codec: Codec, d: Bytes, more: Bytes)
    requires Feed(codec, INIT, d).Ok? && Feed(codec, INIT, d + more).Ok?
    ensures var s, s' := Feed(codec, INIT, d).state, Feed(codec, INIT, d + more).state;
      && Suffix(s.buf, d) && Suffix(s'.buf, d + more)
      && |d| - |s.buf| <= |d + more| - |s'.buf|
      && Rank(s.phase) <= Rank(s'.phase) && s.body <= s'.body
      && Framed(s) && Framed(s') && (2 <= Rank(s.phase) ==> SameHead(s, s'))
  {
    hide Parse;
    FeedSplit(codec, INIT, d, more);
    var s := Feed(codec, INIT, d).state;
    ParseAdvances(codec, More(INIT, d));
    ParseAdvances(codec, More(s, more));
    var s' := Feed(codec, INIT, d + more).state;
    assert [] + d == d;
    var k := |d| - |s.buf|;
    assert (d + more)[k..] == s.buf + more;
    SuffixTrans(s'.buf, s.buf + more, d + more);
  }

  /** Bytes beyond a complete message are kept, in order, and change nothing else. */
  lemma DoneKeepsSurplus(codec: Codec, s: State, more: Bytes)
    requires s.phase == Done
    ensures Feed(codec, s, more) == Ok(More(s, more))
  {
  }

  /** A message after which the parser is done with nothing left over. */
  predicate SelfDelimited(codec: Codec, message: Bytes) {
    var r := Feed(codec, INIT, message);
    r.Ok? && r.state.phase == Done && r.state.buf == []
  }

  /** No proper prefix of a self-delimited message completes or raises; anything after it is left untouched. */
  lemma ExactConsumption(codec: Codec, message: Bytes, prefix: Bytes, rest: Bytes)
    requires SelfDelimited(codec, message)
    ensures Feed(codec, INIT, message + rest) == Ok(Feed(codec, INIT, message).state.(buf := rest))
    ensures prefix < message ==>
      Feed(codec, INIT, prefix).Ok? && Feed(codec, INIT, prefix).state.phase != Done
  {
    hide Parse;
    FeedSplit(codec, INIT, message, rest);
    var s := Feed(codec, INIT, message).state;
    DoneKeepsSurplus(codec, s, rest);
    assert More(s, rest) == s.(buf := rest);
    if prefix < message {
      var tail := message[|prefix|..];
      assert prefix + tail == message;
      FeedSplit(codec, INIT, prefix, tail);
      if Feed(codec, INIT, prefix).Ok? && Feed(codec, INIT, prefix).state.phase == Done {
        DoneKeepsSurplus(codec, Feed(codec, INIT, prefix).state, tail);
      }
    }
  }

  // The state at the end of the header section.

  predicate NoBodyYet(s: State) {
    s.body == [] && s.chunkRemaining == 0 && s.awaitingSize && !s.inTrailers && !s.eof && s.phase != Done
  }

  lemma HeadLeavesBody(s: State)
    requires NoBodyYet(s)
    ensures ParseStatusLine(s).Ok? ==> NoBodyYet(ParseStatusLine(s).state)
    ensures ParseHead(s).Ok? ==> NoBodyYet(ParseHead(s).state)
  {
    hide At, Find, MatchStatusLine, HeaderLines, SplitLines, PyInt.ParseInt, HeaderMap.Get, Contains, Strip;
  }

  function AfterHead(d: Bytes): Outcome {
    match ParseStatusLine(More(INIT, d))
    case Failed(e) => Failed(e)
    case Ok(s) => if s.phase == Head then ParseHead(s) else Ok(s)
  }

  lemma ViaHead(codec: Codec, d: Bytes)
    ensures AfterHead(d).Failed? ==> Feed(codec, INIT, d) == AfterHead(d)
    ensures AfterHead(d).Ok? ==>
      var s := AfterHead(d).state;
      && Advances(More(INIT, d), s) && NoBodyYet(s)
      && Feed(codec, INIT, d) == BodyStage(codec, s)
  {
    hide ParseStatusLine, ParseHead, ParseBody;
    var s0 := More(INIT, d);
    StatusAdvances(s0);
    assert StatusStage(s0) == ParseStatusLine(s0);
    if StatusStage(s0).Ok? {
      var s1 := StatusStage(s0).state;
      HeadLeavesBody(s0);
      HeadLeavesBody(s1);
      if s1.phase == Head {
        HeadAdvances(s1);
        if ParseHead(s1).Ok? {
          var s2 := ParseHead(s1).state;
          AdvancesTrans(s0, s1, s2);
          if s2.phase == Body {
            BodyQuiescent(codec, s2);
          }
        }
      }
    }
  }

  function Announced(s: State): nat
    requires s.contentLength.Some?
  {
    if s.contentLength.value < 0 then 0 else s.contentLength.value
  }

  lemma NeededFromStart(s: State)
    requires s.body == [] && s.contentLength.Some?
    ensures var n, s' := Min(Announced(s), |s.buf|), TakeNeeded(s);
      && s'.body == s.buf[..n] && s'.buf == s.buf[n..]
      && s'.contentLength == s.contentLength && s'.phase == s.phase && s'.eof == s.eof
  {
    var n := Min(Announced(s), |s.buf|);
    assert [] + s.buf[..n] == s.buf[..n];
  }

  lemma FinalizeKeeps(codec: Codec, s: State)
    ensures Finalize(codec, s).Ok? ==>
      var s' := Finalize(codec, s).state; s'.phase == Done && s'.buf == s.buf && s'.body == s.body
  {
    hide Decompress;
  }

  lemma FixedLengthTakes(codec: Codec, s: State)
    requires NoBodyYet(s) && s.contentLength.Some? && ParseFixedLength(codec, s).Ok?
    ensures var n, s' := Announced(s), ParseFixedLength(codec, s).state;
      && s'.body == s.buf[..Min(n, |s.buf|)] && s'.buf == s.buf[Min(n, |s.buf|)..]
      && (s'.phase == Done <==> |s.buf| >= n)
  {
    hide TakeNeeded, Finalize;
    NeededFromStart(s);
    FinalizeKeeps(codec, TakeNeeded(s));
  }

  /**
   * Content-Length framing: with N not negative, the body is the N bytes after the header section as far as
   * they have arrived, the surplus stays buffered, and without EOF the parser is done exactly when all N are in.
   * A negative N acts as zero.
   */
  lemma FixedLengthExact(codec: Codec, d: Bytes)
    requires Feed(codec, INIT, d).Ok? && Feed(codec, INIT, d).state.contentLength.Some?
    ensures var s := Feed(codec, INIT, d).state;
      var n := Announced(s);
      AfterHead(d).Ok? &&
      var rest := AfterHead(d).state.buf;
      && Suffix(rest, d)
      && s.body == rest[..Min(n, |rest|)] && s.buf == rest[Min(n, |rest|)..]
      && (s.phase == Done <==> |rest| >= n)
  {
    hide Feed, AfterHead, ParseFixedLength;
    ViaHead(codec, d);
    var s := AfterHead(d).state;
    assert [] + d == d;
    BodyAdvances(codec, s);
    FixedLengthTakes(codec, s);
  }

  lemma UntilCloseTakes(codec: Codec, s: State)
    requires NoBodyYet(s)
    ensures ParseUntilClose(codec, s) == Ok(s.(body := s.buf, buf := []))
  {
    hide Finalize;
    assert [] + s.buf[..|s.buf|] == s.buf;
  }

  /** Read-until-close framing: every byte after the header section is body, and only EOF completes it. */
  lemma UntilCloseExact(codec: Codec, d: Bytes)
    requires Feed(codec, INIT, d).Ok? && Feed(codec, INIT, d).state.untilClose
    ensures var s := Feed(codec, INIT, d).state;
      AfterHead(d).Ok? && s.body == AfterHead(d).state.buf && s.buf == [] && s.phase == Body
  {
    hide Feed, AfterHead, ParseUntilClose;
    ViaHead(codec, d);
    var s := AfterHead(d).state;
    BodyAdvances(codec, s);
    UntilCloseTakes(codec, s);
  }

  // Early EOF.

  /** What `feed_eof` does in each state that a `feed` can leave. */
  function EofVerdict(codec: Codec, s: State): Outcome {
    var s' := s.(eof := true);
    match s.phase
    case Status => if s.buf == [] then Ok(s') else Failed(EofBeforeStatusLine)
    case Head => if s.buf == [] then Ok(s') else Failed(EofInsideHeaders)
    case Done => Ok(s')
    case Body =>
      if !s.chunked || s.inTrailers then Finalize(codec, s')
      else if s.awaitingSize then if s.buf == [] then Ok(s') else Failed(EofInsideChunkSize)
      else if s.chunkRemaining > 0 then Failed(EofInsideChunkData)
      else Failed(EofBeforeChunkTerminator)
  }

  /** The states in which EOF neither completes the response nor raises. */
  predicate StaysOpen(s: State) {
    s.buf == [] && match s.phase
      case Status => true
      case Head => true
      case Body => s.chunked && !s.inTrailers && s.awaitingSize
      case Done => false
  }

  /**
   * The promise that an early EOF mid-body is tolerated by finalizing with what was received is kept exactly when
   * the body is not chunked or has reached its trailers, and what was received can be decompressed or passed on.
   */
  lemma EarlyEofTolerated(codec: Codec, d: Bytes)
    requires Feed(codec, INIT, d).Ok? && Feed(codec, INIT, d).state.phase == Body
    ensures var s := Feed(codec, INIT, d).state; var r := FeedEof(codec, s);
      && (r.Ok? && r.state.phase == Done
          <==> (!s.chunked || s.inTrailers) && Decompress(codec, s.headers, s.body).Some?)
      && (r.Ok? && r.state.phase == Done ==>
            r.state.response == Some(Response(s.code, s.reason, s.version, s.headers,
                                              Decompress(codec, s.headers, s.body).value)))
  {
    hide Parse, Decompress, Feed;
    EarlyEof(codec, d);
  }

  lemma ChunkedStuck(codec: Codec, s: State)
    requires Framed(s) && s.phase == Body && ParseChunked(codec, s) == Ok(s)
    ensures ChunkTurn(codec, s) == Stop(Ok(s))
  {
    TurnAdvances(codec, s);
    match ChunkTurn(codec, s)
    case Stop(_) =>
    case Next(s') => ChunkedAdvances(codec, s');
  }

  lemma ChunkedEof(codec: Codec, s: State)
    requires !s.eof && Framed(s) && s.phase == Body && s.chunked
    requires ChunkTurn(codec, s) == Stop(Ok(s))
    ensures ParseChunked(codec, s.(eof := true)) == EofVerdict(codec, s)
    ensures EofVerdict(codec, s).Ok? && EofVerdict(codec, s).state.phase == Body ==>
      EofVerdict(codec, s).state == s.(eof := true)
  {
    hide At, PyInt.ParseInt, SizeToken, Decompress;
    if !s.inTrailers && !s.awaitingSize && s.chunkRemaining > 0 {
      assert TakeChunk(s) == s;
    }
  }

  /** The outcome of EOF, for every byte string that may have arrived before it. */
  lemma EarlyEof(codec: Codec, d: Bytes)
    requires Feed(codec, INIT, d).Ok?
    ensures var s := Feed(codec, INIT, d).state;
      && FeedEof(codec, s) == EofVerdict(codec, s)
      && (FeedEof(codec, s).Ok? && FeedEof(codec, s).state.phase != Done <==> StaysOpen(s))
  {
    var s := Feed(codec, INIT, d).state;
    InitQuiescent(codec);
    FeedQuiescent(codec, INIT, d);
    ParseAdvances(codec, More(INIT, d));
    assert More(s, []) == s;
    EofFromQuiescent(codec, s);
  }

  lemma BodyEof(codec: Codec, s: State)
    requires !s.eof && Framed(s) && s.phase == Body && ParseBody(codec, s) == Ok(s)
    ensures ParseBody(codec, s.(eof := true)) == EofVerdict(codec, s)
    ensures EofVerdict(codec, s).Ok? ==> EofVerdict(codec, s).state.phase == Done
                                         || EofVerdict(codec, s) == Ok(s.(eof := true))
  {
    hide Decompress;
    if s.chunked {
      ChunkedStuck(codec, s);
      ChunkedEof(codec, s);
    } else if s.contentLength.Some? {
      assert TakeNeeded(s) == s;
      assert TakeNeeded(s.(eof := true)) == s.(eof := true);
    } else {
      assert Take(s, |s.buf|) == s;
      assert Take(s.(eof := true), |s.buf|) == s.(eof := true);
    }
  }

  lemma StatusEof(codec: Codec, s: State)
    requires !s.eof && Framed(s) && s.phase == Status && Parse(codec, s) == Ok(s)
    ensures ParseStatusLine(s.(eof := true)) == EofVerdict(codec, s)
  {
    hide At, MatchStatusLine, ParseHead, ParseBody;
    StatusAdvances(s);
    var r := ParseStatusLine(s);
    if r.Ok? && r.state.phase != Status {
      HeadThenBodyMore(codec, r.state, []);
    }
  }

  lemma HeadWaits(codec: Codec, s: State)
    requires !s.eof && Framed(s) && s.phase == Head && Parse(codec, s) == Ok(s)
    ensures ParseHead(s) == Ok(s)
  {
    hide HeaderBlock, HeaderLines, ResolveFraming, SplitLines, ParseBody, ParseHead;
    var r := ParseHead(s);
    HeadMore(s, []);
    HeadAdvances(s);
    if r.Ok? && r.state.phase == Body {
      BodyAdvances(codec, r.state);
      if BodyStage(codec, r.state).Ok? {
        BodyAdvances(codec, BodyStage(codec, r.state).state);
      }
    }
  }

  lemma HeadEof(codec: Codec, s: State)
    requires !s.eof && Framed(s) && s.phase == Head && Parse(codec, s) == Ok(s)
    ensures ParseHead(s.(eof := true)) == EofVerdict(codec, s)
  {
    hide HeaderBlock, HeaderLines, ResolveFraming, SplitLines, ParseBody, Parse;
    HeadWaits(codec, s);
    HeadMore(s, []);
  }

  lemma EofFromQuiescent(codec: Codec, s: State)
    requires !s.eof && Framed(s) && Parse(codec, s) == Ok(s)
    ensures FeedEof(codec, s) == EofVerdict(codec, s)
    ensures FeedEof(codec, s).Ok? && FeedEof(codec, s).state.phase != Done <==> StaysOpen(s)
  {
    hide ParseStatusLine, ParseHead, ParseBody, Decompress;
    if s.phase == Body {
      BodyEof(codec, s);
    } else if s.phase == Head {
      HeadEof(codec, s);
    } else if s.phase == Status {
      StatusEof(codec, s);
    }
  }
}
