/** The parser tolerates data split at any byte offset: its outcome depends only on the bytes, not on the cuts. */
module Segmentation {
  import opened ByteStrings
  import HeaderMap
  import opened PyInt
  import opened ParserSpec

  function ThenFeed(codec: Codec, r: Outcome, data: Bytes): Outcome {
    match r
    case Failed(e) => Failed(e)
    case Ok(s) => Feed(codec, s, data)
  }

  // Each stage: what it has decided on some bytes is not changed by bytes that arrive later.

  lemma StatusMore(s: State, more: Bytes)
    requires !s.eof && s.phase == Status
    ensures match ParseStatusLine(s)
      case Failed(e) => ParseStatusLine(More(s, more)) == Failed(e)
      case Ok(s') => if s'.phase == Status then s' == s else ParseStatusLine(More(s, more)) == Ok(More(s', more))
  {
    var i := Find(s.buf, CRLF);
    if i != -1 {
      FindStable(s.buf, more, CRLF);
      assert (s.buf + more)[..i] == s.buf[..i];
      assert (s.buf + more)[i + 2..] == s.buf[i + 2..] + more;
    }
  }

  lemma BlockMore(buf: Bytes, more: Bytes)
    ensures match HeaderBlock(buf)
      case NoBlock => true
      case Block(text, rest) =>
        && HeaderBlock(buf + more).Block?
        && HeaderBlock(buf + more).text == text && HeaderBlock(buf + more).rest == rest + more
  {
    if CRLF <= buf {
      assert (buf + more)[2..] == buf[2..] + more;
    } else {
      var end := Find(buf, BLANK);
      if end != -1 {
        FindStable(buf, more, BLANK);
        assert (buf + more)[..end] == buf[..end];
        assert (buf + more)[end + 4..] == buf[end + 4..] + more;
      }
    }
  }

  lemma FramingMore(s: State, more: Bytes)
    ensures match ResolveFraming(s)
      case Failed(e) => ResolveFraming(More(s, more)) == Failed(e)
      case Ok(s') => s'.eof == s.eof && ResolveFraming(More(s, more)) == Ok(More(s', more))
  {
    hide HeaderMap.Get, Contains, Strip, ParseInt;
  }

  lemma HeadMore(s: State, more: Bytes)
    requires !s.eof && s.phase == Head
    ensures match ParseHead(s)
      case Failed(e) => ParseHead(More(s, more)) == Failed(e)
      case Ok(s') => if s'.phase == Head then s' == s
                     else s'.phase == Body && !s'.eof && ParseHead(More(s, more)) == Ok(More(s', more))
  {
    hide HeaderBlock, HeaderLines, SplitLines, ResolveFraming;
    BlockMore(s.buf, more);
    match HeaderBlock(s.buf)
    case NoBlock =>
    case Block(text, rest) =>
      match HeaderLines(s.headers, SplitLines(text))
      case Rejected(_) =>
      case Parsed(store) => FramingMore(s.(buf := rest, headers := store), more);
  }

  lemma TakeMore(s: State, more: Bytes, n: nat)
    requires n <= |s.buf|
    ensures Take(More(s, more), n) == More(Take(s, n), more)
  {
    assert (s.buf + more)[..n] == s.buf[..n];
    assert (s.buf + more)[n..] == s.buf[n..] + more;
  }

  lemma SliceAcross(a: Bytes, b: Bytes, n: nat)
    requires n <= |b|
    ensures (a + b)[..|a| + n] == a + b[..n] && (a + b)[|a| + n..] == b[n..]
  {
  }

  /** Taking everything now and the rest later is taking it all at once. */
  lemma TakeAcross(s: State, more: Bytes, n: nat)
    requires n <= |more|
    ensures Take(More(Take(s, |s.buf|), more), n) == Take(More(s, more), |s.buf| + n)
  {
    SliceAcross(s.buf, more, n);
    assert s.buf[..|s.buf|] == s.buf && s.buf[|s.buf|..] + more == more;
    assert s.body + s.buf + more[..n] == s.body + (s.buf + more[..n]);
  }

  /** What later bytes may do to a body stage: nothing to a verdict, and resume it where it stopped otherwise. */
  ghost predicate Resumes(codec: Codec, s: State, more: Bytes) {
    var whole := ParseBody(codec, More(s, more));
    match ParseBody(codec, s)
    case Failed(e) => whole == Failed(e)
    case Ok(s') =>
      && !s'.eof
      && (s'.phase == Done || s'.phase == Body)
      && (s'.phase == Done ==> whole == Ok(More(s', more)))
      && (s'.phase == Body ==> whole == ParseBody(codec, More(s', more)))
  }

  lemma FinalizeMore(codec: Codec, s: State, more: Bytes)
    ensures match Finalize(codec, s)
      case Failed(e) => Finalize(codec, More(s, more)) == Failed(e)
      case Ok(s') => s'.phase == Done && s'.eof == s.eof && Finalize(codec, More(s, more)) == Ok(More(s', more))
  {
  }

  lemma FixedLengthEnough(codec: Codec, s: State, more: Bytes)
    requires s.contentLength.Some? && 0 < s.contentLength.value - |s.body| <= |s.buf|
    ensures match ParseFixedLength(codec, s)
      case Failed(e) => ParseFixedLength(codec, More(s, more)) == Failed(e)
      case Ok(s') => s'.phase == Done && s'.eof == s.eof && ParseFixedLength(codec, More(s, more)) == Ok(More(s', more))
  {
    var need := s.contentLength.value - |s.body|;
    TakeMore(s, more, need);
    FinalizeMore(codec, Take(s, need), more);
  }

  lemma FixedLengthShort(s: State, more: Bytes)
    requires s.contentLength.Some? && s.contentLength.value - |s.body| > |s.buf|
    ensures TakeNeeded(s) == Take(s, |s.buf|)
    ensures TakeNeeded(More(s, more)) == TakeNeeded(More(Take(s, |s.buf|), more))
  {
    TakeAcross(s, more, Min(s.contentLength.value - |s.body| - |s.buf|, |more|));
  }

  lemma FixedLengthMore(codec: Codec, s: State, more: Bytes)
    requires !s.eof && s.phase == Body && !s.chunked && s.contentLength.Some?
    ensures Resumes(codec, s, more)
  {
    var need := s.contentLength.value - |s.body|;
    if need <= 0 {
      FinalizeMore(codec, s, more);
    } else if need <= |s.buf| {
      FixedLengthEnough(codec, s, more);
    } else {
      FixedLengthShort(s, more);
    }
  }

  lemma UntilCloseMore(codec: Codec, s: State, more: Bytes)
    requires !s.eof && s.phase == Body && !s.chunked && s.contentLength.None?
    ensures Resumes(codec, s, more)
  {
    TakeAcross(s, more, |more|);
    assert Take(s, |s.buf|).buf == [];
  }

  lemma TrailerMore(codec: Codec, s: State, more: Bytes)
    requires !s.eof && s.phase == Body && s.inTrailers
    ensures match ChunkTurn(codec, s)
      case Next(_) => false
      case Stop(Failed(e)) => ChunkTurn(codec, More(s, more)) == Stop(Failed(e))
      case Stop(Ok(s')) => if s'.phase == Body then s' == s
                           else && s'.phase == Done && !s'.eof
                                && ChunkTurn(codec, More(s, more)) == Stop(Ok(More(s', more)))
  {
    hide At, Find, Finalize;
    var end := Find(s.buf, BLANK);
    if CRLF <= s.buf {
      assert (s.buf + more)[2..] == s.buf[2..] + more;
      FinalizeMore(codec, s.(buf := s.buf[2..]), more);
    } else if end != -1 {
      FindStable(s.buf, more, BLANK);
      LongEnough(s.buf, end);
      assert (s.buf + more)[end + 4..] == s.buf[end + 4..] + more;
      FinalizeMore(codec, s.(buf := s.buf[end + 4..]), more);
    }
  }

  lemma LongEnough(buf: Bytes, end: int)
    requires end == Find(buf, BLANK) != -1
    ensures |buf| >= 4
  {
  }

  lemma TakeChunkEnough(s: State, more: Bytes)
    requires s.chunkRemaining <= |s.buf|
    ensures TakeChunk(s).chunkRemaining <= 0
    ensures TakeChunk(More(s, more)) == More(TakeChunk(s), more)
  {
    TakeMore(s, more, if s.chunkRemaining > 0 then s.chunkRemaining else 0);
  }

  lemma TakeAll(s: State)
    ensures var taken := Take(s, |s.buf|); taken.buf == [] && taken.chunkRemaining == s.chunkRemaining
  {
  }

  lemma TakeChunkIs(s: State, n: nat)
    requires n == if s.chunkRemaining > 0 then Min(s.chunkRemaining, |s.buf|) else 0
    ensures TakeChunk(s) == Take(s, n).(chunkRemaining := s.chunkRemaining - n)
  {
  }

  /** The counter goes its own way. */
  lemma TakeCounter(s: State, more: Bytes, n: nat, left: int)
    requires n <= |s.buf + more|
    ensures More(s.(chunkRemaining := left), more) == More(s, more).(chunkRemaining := left)
    ensures Take(More(s, more).(chunkRemaining := left), n) == Take(More(s, more), n).(chunkRemaining := left)
  {
  }

  lemma TakeChunkShort(s: State, more: Bytes)
    requires s.chunkRemaining > |s.buf|
    ensures TakeChunk(s) == Take(s, |s.buf|).(chunkRemaining := s.chunkRemaining - |s.buf|)
    ensures TakeChunk(More(s, more)) == TakeChunk(More(TakeChunk(s), more))
  {
    hide Take, TakeChunk;
    var left := s.chunkRemaining - |s.buf|;
    var n, taken := Min(left, |more|), Take(s, |s.buf|);
    TakeAll(s);
    TakeChunkIs(s, |s.buf|);
    TakeChunkIs(More(s, more), |s.buf| + n);
    TakeAcross(s, more, n);
    TakeCounter(taken, more, n, left);
    TakeChunkIs(More(taken, more).(chunkRemaining := left), n);
  }

  /** The chunked counterpart of `Resumes`, for a single turn of the loop. */
  ghost predicate TurnResumes(codec: Codec, s: State, now: Turn, more: Bytes) {
    var whole := ChunkTurn(codec, More(s, more));
    match now
    case Next(s') => !s'.eof && s'.phase == Body && s'.chunked && whole == Next(More(s', more))
    case Stop(Failed(e)) => whole == Stop(Failed(e))
    case Stop(Ok(s')) =>
      && !s'.eof && s'.chunked
      && (s'.phase == Done || s'.phase == Body)
      && (s'.phase == Done ==> whole == Stop(Ok(More(s', more))))
      && (s'.phase == Body ==> whole == ChunkTurn(codec, More(s', more)))
  }

  lemma TakeChunkHead(s: State)
    ensures var s' := TakeChunk(s);
      && s'.eof == s.eof && s'.phase == s.phase && s'.chunked == s.chunked && s'.inTrailers == s.inTrailers
      && s'.awaitingSize == s.awaitingSize && (s'.chunkRemaining > 0 <==> s.chunkRemaining > |s.buf|)
  {
  }

  lemma NothingLeft(s: State)
    requires s.chunkRemaining <= 0
    ensures TakeChunk(s) == s
  {
  }

  lemma DataMore(codec: Codec, s: State, more: Bytes)
    requires !s.eof && s.phase == Body && s.chunked && !s.inTrailers && !s.awaitingSize
    ensures TurnResumes(codec, s, DataTurn(s), more)
  {
    hide TakeChunk;
    TakeChunkHead(s);
    if s.chunkRemaining > |s.buf| {
      TakeChunkShort(s, more);
    } else {
      TakeChunkEnough(s, more);
      var s' := TakeChunk(s);
      NothingLeft(s');
      NothingLeft(More(s', more));
      if |s'.buf| >= 2 {
        assert (s'.buf + more)[2..] == s'.buf[2..] + more;
      }
    }
  }

  function AfterSize(s: State, i: nat, n: int): State
    requires i + 2 <= |s.buf|
  {
    s.(buf := s.buf[i + 2..], chunkRemaining := n, awaitingSize := false)
  }

  lemma SizeTurnWaits(s: State)
    requires !s.eof && Find(s.buf, CRLF) == -1
    ensures SizeTurn(s) == Stop(Ok(s))
  {
    hide At;
  }

  lemma SizeTurnIs(s: State, i: nat)
    requires Find(s.buf, CRLF) == i
    ensures SizeTurn(s) ==
      match ParseInt(SizeToken(s.buf[..i]), 16)
      case None => Stop(Failed(InvalidChunkSize(s.buf[..i])))
      case Some(n) =>
        if n == 0 then Next(s.(buf := s.buf[i + 2..], inTrailers := true)) else DataTurn(AfterSize(s, i, n))
  {
    hide At, ParseInt, SizeToken, DataTurn;
  }

  lemma SizeMore(codec: Codec, s: State, more: Bytes)
    requires !s.eof && s.phase == Body && s.chunked && !s.inTrailers && s.awaitingSize
    ensures TurnResumes(codec, s, SizeTurn(s), more)
  {
    hide At, Find, ParseInt, SizeToken, SizeTurn, DataTurn;
    var i := Find(s.buf, CRLF);
    if i == -1 {
      SizeTurnWaits(s);
    } else {
      FindStable(s.buf, more, CRLF);
      assert (s.buf + more)[..i] == s.buf[..i];
      assert (s.buf + more)[i + 2..] == s.buf[i + 2..] + more;
      SizeTurnIs(s, i);
      SizeTurnIs(More(s, more), i);
      var size := ParseInt(SizeToken(s.buf[..i]), 16);
      if size.Some? && size.value != 0 {
        DataMore(codec, AfterSize(s, i, size.value), more);
      }
    }
  }

  lemma TurnMore(codec: Codec, s: State, more: Bytes)
    requires !s.eof && s.phase == Body && s.chunked
    ensures TurnResumes(codec, s, ChunkTurn(codec, s), more)
  {
    if s.inTrailers {
      TrailerMore(codec, s, more);
    } else if s.awaitingSize {
      SizeMore(codec, s, more);
    } else {
      DataMore(codec, s, more);
    }
  }

  lemma {:induction false} ChunkedMore(codec: Codec, s: State, more: Bytes)
    requires !s.eof && s.phase == Body && s.chunked
    ensures Resumes(codec, s, more)
    decreases |s.buf|
  {
    TurnMore(codec, s, more);
    match ChunkTurn(codec, s)
    case Stop(_) =>
    case Next(s') => ChunkedMore(codec, s', more);
  }

  lemma BodyMore(codec: Codec, s: State, more: Bytes)
    requires !s.eof && s.phase == Body
    ensures Resumes(codec, s, more)
  {
    if s.chunked {
      ChunkedMore(codec, s, more);
    } else if s.contentLength.Some? {
      FixedLengthMore(codec, s, more);
    } else {
      UntilCloseMore(codec, s, more);
    }
  }

  /** The body stage leaves a quiescent state, so the second `_parse_body` of a pass does nothing. */
  lemma BodyQuiescent(codec: Codec, s: State)
    requires !s.eof && s.phase == Body
    ensures match ParseBody(codec, s)
      case Failed(_) => true
      case Ok(s') => BodyStage(codec, s') == Ok(s')
  {
    BodyMore(codec, s, []);
    assert More(s, []) == s;
    if ParseBody(codec, s).Ok? {
      assert More(ParseBody(codec, s).state, []) == ParseBody(codec, s).state;
    }
  }

  /** A pass over the bytes so far, then a pass with more, is one pass over all of them. */
  lemma ParseMore(codec: Codec, s: State, more: Bytes)
    requires !s.eof
    ensures Parse(codec, More(s, more)) == ThenFeed(codec, Parse(codec, s), more)
    ensures Parse(codec, s).Ok? ==> !Parse(codec, s).state.eof
  {
    if s.phase == Status {
      StatusMore(s, more);
    }
    if StatusStage(s).Ok? && StatusStage(s).state.phase != Status {
      HeadThenBodyMore(codec, StatusStage(s).state, more);
    }
  }

  function AfterStatus(codec: Codec, s: State): Outcome {
    match HeadStage(codec, s)
    case Failed(e) => Failed(e)
    case Ok(s') => BodyStage(codec, s')
  }

  lemma HeadThenBodyMore(codec: Codec, s: State, more: Bytes)
    requires !s.eof && s.phase != Status
    ensures AfterStatus(codec, More(s, more)) == ThenFeed(codec, AfterStatus(codec, s), more)
    ensures AfterStatus(codec, s).Ok? ==>
      !AfterStatus(codec, s).state.eof && AfterStatus(codec, s).state.phase != Status
  {
    var whole := More(s, more);
    if s.phase == Head {
      HeadMore(s, more);
      match ParseHead(s) {
        case Failed(_) =>
        case Ok(s') =>
          if s'.phase == Body {
            BodyMore(codec, s', more);
            BodyQuiescent(codec, s');
            BodyQuiescent(codec, More(s', more));
          }
      }
    } else if s.phase == Body {
      BodyMore(codec, s, more);
    }
  }

  /** Cutting one `feed` in two makes no difference, wherever the cut falls. */
  lemma FeedSplit(codec: Codec, s: State, a: Bytes, b: Bytes)
    requires !s.eof
    ensures Feed(codec, s, a + b) == ThenFeed(codec, Feed(codec, s, a), b)
    ensures Feed(codec, s, a).Ok? ==> !Feed(codec, s, a).state.eof
  {
    ParseMore(codec, More(s, a), b);
    assert More(More(s, a), b) == More(s, a + b) by {
      assert s.buf + (a + b) == s.buf + a + b;
    }
  }

  /** A state that a pass has left: feeding it nothing changes nothing. */
  ghost predicate Quiescent(codec: Codec, s: State) {
    Feed(codec, s, []) == Ok(s)
  }

  lemma FeedQuiescent(codec: Codec, s: State, data: Bytes)
    requires !s.eof
    ensures Feed(codec, s, data).Ok? ==> Quiescent(codec, Feed(codec, s, data).state)
  {
    FeedSplit(codec, s, data, []);
    assert data + [] == data;
  }

  lemma InitQuiescent(codec: Codec)
    ensures Quiescent(codec, INIT)
  {
  }

  /**
   * Segmentation invariance: from any state a pass has left, any sequence of `feed` calls reaches the outcome
   * of one `feed` of the concatenation: the same state (response, leftover and all) or the same error.
   */
  lemma {:induction false} SegmentationInvariance(codec: Codec, s: State, chunks: seq<Bytes>)
    requires !s.eof && Quiescent(codec, s)
    ensures FeedAll(codec, s, chunks) == Feed(codec, s, Concat(chunks))
    decreases |chunks|
  {
    if chunks == [] {
    } else {
      FeedSplit(codec, s, chunks[0], Concat(chunks[1..]));
      FeedQuiescent(codec, s, chunks[0]);
      if Feed(codec, s, chunks[0]).Ok? {
        SegmentationInvariance(codec, Feed(codec, s, chunks[0]).state, chunks[1..]);
      }
    }
  }

  /** Any two segmentations of the same bytes, with or without a closing EOF, have the same outcome. */
  lemma AnyTwoSegmentations(codec: Codec, chunks: seq<Bytes>, chunks': seq<Bytes>)
    requires Concat(chunks) == Concat(chunks')
    ensures FeedAll(codec, INIT, chunks) == FeedAll(codec, INIT, chunks') == Feed(codec, INIT, Concat(chunks))
    ensures ThenEof(codec, FeedAll(codec, INIT, chunks)) == ThenEof(codec, FeedAll(codec, INIT, chunks'))
  {
    InitQuiescent(codec);
    SegmentationInvariance(codec, INIT, chunks);
    SegmentationInvariance(codec, INIT, chunks');
  }
}
