/** What the parser refuses, and with which error, wherever in a message it stands. */
module Rejections {
  import opened ByteStrings
  import opened PyInt
  import opened HeaderMap
  import opened ParserSpec
  import opened Framing
  import opened Grammar
  import opened MessageFraming

  // Heads.

  /** A first line that is no status line. */
  lemma BadStatusLine(codec: Codec, line: Bytes, rest: Bytes)
    requires Find(line, CRLF) == -1 && MatchStatusLine(line).None?
    ensures Feed(codec, INIT, line + CRLF + rest) == Failed(MalformedStatusLine(line))
  {
    hide At, MatchStatusLine, HeadStage, BodyStage;
    var d := line + CRLF + rest;
    FindLineEnd(line, rest);
    assert [] + d == d && d[..|line|] == line;
  }

  lemma {:induction false} LinesStop(store: Store, good: seq<Bytes>, bad: Bytes, more: seq<Bytes>)
    requires HeaderLines(store, good).Parsed? && HeaderLine(HeaderLines(store, good).store, bad).Rejected?
    ensures HeaderLines(store, good + [bad] + more) == HeaderLine(HeaderLines(store, good).store, bad)
    decreases |good|
  {
    hide HeaderLine;
    var all := good + [bad] + more;
    if good == [] {
      assert all[0] == bad;
    } else {
      assert all[0] == good[0] && all[1..] == good[1..] + [bad] + more;
      LinesStop(HeaderLine(store, good[0]).store, good[1..], bad, more);
    }
  }

  lemma HeadRejected(codec: Codec, status: Bytes, lines: seq<Bytes>, rest: Bytes)
    requires Find(status, CRLF) == -1 && MatchStatusLine(status).Some?
    requires (forall l :: l in lines ==> IsLine(l)) && HeaderLines([], lines).Rejected?
    ensures Feed(codec, INIT, RenderHead(status, lines) + rest) == Failed(HeaderLines([], lines).error)
  {
    hide MatchStatusLine, HeaderLines, ResolveFraming, HeaderBlock, SplitLines, Section, Feed;
    var d := RenderHead(status, lines) + rest;
    var section := Section(lines) + rest;
    assert [] + d == d && d == status + CRLF + section;
    FindLineEnd(status, section);
    assert d[..|status|] == status && d[|status| + 2..] == section;
    BlockReadsBack(lines, rest);
    ViaHead(codec, d);
  }

  /** A line that is no field: not folded, and without a name before a colon. */
  predicate NoField(line: Bytes) {
    line != [] && line[0] != ' ' && line[0] != '\t' && (':' !in line || line[0] == ':')
  }

  lemma NoFieldRejected(store: Store, line: Bytes)
    requires NoField(line)
    ensures HeaderLine(store, line) == Rejected(MalformedHeaderLine(line))
  {
    forall j | 0 <= j < |line| ensures At(line, [':'], j) <==> line[j] == ':' {
      assert line[j..j + 1] == [line[j]];
    }
  }

  /** Such a line, after any lines that are taken and whatever follows. */
  lemma BadHeaderLine(codec: Codec, status: Bytes, good: seq<Bytes>, bad: Bytes, more: seq<Bytes>, rest: Bytes)
    requires Find(status, CRLF) == -1 && MatchStatusLine(status).Some?
    requires forall l :: l in good + [bad] + more ==> IsLine(l)
    requires HeaderLines([], good).Parsed? && NoField(bad)
    ensures Feed(codec, INIT, RenderHead(status, good + [bad] + more) + rest) == Failed(MalformedHeaderLine(bad))
  {
    hide MatchStatusLine, HeaderLines, HeaderLine, Feed, RenderHead, IsLine, NoField;
    NoFieldRejected(HeaderLines([], good).store, bad);
    LinesStop([], good, bad, more);
    HeadRejected(codec, status, good + [bad] + more, rest);
  }

  /** A folded line with no field before it. */
  lemma LeadingFold(codec: Codec, status: Bytes, fold: Bytes, more: seq<Bytes>, rest: Bytes)
    requires Find(status, CRLF) == -1 && MatchStatusLine(status).Some?
    requires (forall l :: l in [fold] + more ==> IsLine(l)) && fold != [] && (fold[0] == ' ' || fold[0] == '\t')
    ensures Feed(codec, INIT, RenderHead(status, [fold] + more) + rest) == Failed(ContinuationWithoutHeader)
  {
    hide MatchStatusLine, Feed, RenderHead, IsLine, Strip;
    assert Items([]) == [];
    LinesStop([], [], fold, more);
    assert [] + [fold] + more == [fold] + more;
    HeadRejected(codec, status, [fold] + more, rest);
  }

  // Chunked bodies.

  /** Whole chunks at the front of the buffer are read and leave the decoder where it was, their data in the body. */
  lemma {:induction false} ChunksRead(codec: Codec, s: State, chunks: seq<Chunk>, tail: Bytes)
    requires BeforeSize(s) && s.buf == RenderChunks(chunks) + tail
    requires forall c :: c in chunks ==> IsChunk(c)
    ensures ParseChunked(codec, s) == ParseChunked(codec, s.(buf := tail, body := s.body + Data(chunks)))
    decreases |chunks|
  {
    hide AllDigits, IsExt, IsChunk, RenderChunk, SizeTurn, TrailerTurn, DataTurn;
    if chunks == [] {
      assert RenderChunks(chunks) + tail == tail;
      assert s.body + Data(chunks) == s.body;
    } else {
      var c := chunks[0];
      var rest := RenderChunks(chunks[1..]) + tail;
      assert s.buf == RenderChunk(c) + rest;
      ChunkTurnReads(codec, s, c, rest);
      var s' := s.(buf := rest, body := s.body + c.data);
      ChunksRead(codec, s', chunks[1..], tail);
      assert s.body + Data(chunks) == s'.body + Data(chunks[1..]);
    }
  }

  function AfterChunks(h: HeadText, chunks: seq<Chunk>, tail: Bytes): State {
    HeadOf(h.said, FromLines(h.fields), tail).(phase := Body, chunked := true, body := Data(chunks))
  }

  /** A chunked response up to some point between two chunks. */
  lemma ChunksThen(codec: Codec, h: HeadText, chunks: seq<Chunk>, tail: Bytes)
    requires IsHead(h) && Chunked(h) && forall c :: c in chunks ==> IsChunk(c)
    ensures Feed(codec, INIT, Text(h) + RenderChunks(chunks) + tail)
         == ParseChunked(codec, AfterChunks(h, chunks, tail))
    ensures BeforeSize(AfterChunks(h, chunks, tail))
  {
    hide Feed, AfterHead, ParseChunked, FromLines, IsHead, Chunked, IsChunk, RenderChunks;
    var rest := RenderChunks(chunks) + tail;
    assert Text(h) + RenderChunks(chunks) + tail == Text(h) + rest;
    FramingDecided(h, rest);
    ViaHead(codec, Text(h) + rest);
    var s := AfterHead(Text(h) + rest).state;
    ChunksRead(codec, s, chunks, tail);
    assert [] + Data(chunks) == Data(chunks);
  }

  /** A size that is no hexadecimal number, after any chunks. */
  lemma BadChunkSize(codec: Codec, h: HeadText, chunks: seq<Chunk>, line: Bytes, tail: Bytes)
    requires IsHead(h) && Chunked(h) && forall c :: c in chunks ==> IsChunk(c)
    requires Find(line, CRLF) == -1 && ParseInt(SizeToken(line), 16).None?
    ensures Feed(codec, INIT, Text(h) + RenderChunks(chunks) + (line + CRLF + tail)) == Failed(InvalidChunkSize(line))
  {
    hide Feed, IsHead, Chunked, IsChunk, RenderChunks, SizeToken, ParseInt, FromLines, At, Find, DataTurn;
    ChunksThen(codec, h, chunks, line + CRLF + tail);
    FindLineEnd(line, tail);
    assert (line + CRLF + tail)[..|line|] == line;
  }

  /** Chunk data that is not followed by CRLF. */
  lemma BadTerminator(codec: Codec, h: HeadText, chunks: seq<Chunk>, size: Bytes, ext: Bytes, data: Bytes, tail: Bytes)
    requires IsHead(h) && Chunked(h) && forall c :: c in chunks ==> IsChunk(c)
    requires AllDigits(size, 16) && Value(size, 16) == |data| > 0 && IsExt(ext)
    requires |tail| >= 2 && tail[..2] != CRLF
    ensures Feed(codec, INIT, Text(h) + RenderChunks(chunks) + (size + ext + CRLF + data + tail))
         == Failed(MissingChunkTerminator)
  {
    hide Feed, IsHead, Chunked, IsChunk, RenderChunks, FromLines, SizeTurn, AllDigits, IsExt, Value;
    var rest := size + ext + CRLF + (data + tail);
    assert size + ext + CRLF + data + tail == rest;
    ChunksThen(codec, h, chunks, rest);
    SizeLineTurn(AfterChunks(h, chunks, rest), size, ext, data + tail);
    assert (data + tail)[..|data|] == data && (data + tail)[|data|..] == tail;
  }

  /** A negative size, which Python's `int` reads, is an empty chunk: it must be followed by CRLF, and adds nothing. */
  lemma NegativeChunk(codec: Codec, h: HeadText, chunks: seq<Chunk>, size: Bytes, tail: Bytes)
    requires IsHead(h) && Chunked(h) && forall c :: c in chunks ==> IsChunk(c)
    requires AllDigits(size, 16) && Value(size, 16) > 0
    ensures Feed(codec, INIT, Text(h) + RenderChunks(chunks) + (['-'] + size + CRLF + CRLF + tail))
         == ParseChunked(codec, AfterChunks(h, chunks, tail).(chunkRemaining := -(Value(size, 16) as int)))
  {
    hide Feed, IsHead, Chunked, IsChunk, RenderChunks, FromLines, Value, SizeTurn, TrailerTurn, AllDigits;
    var rest := ['-'] + size + CRLF + (CRLF + tail);
    assert ['-'] + size + CRLF + CRLF + tail == rest;
    ChunksThen(codec, h, chunks, rest);
    NegativeTurn(AfterChunks(h, chunks, rest), size, tail);
  }

  lemma NegativeTurn(s: State, size: Bytes, tail: Bytes)
    requires BeforeSize(s) && s.buf == ['-'] + size + CRLF + (CRLF + tail)
    requires AllDigits(size, 16) && Value(size, 16) > 0
    ensures SizeTurn(s) == Next(s.(buf := tail, chunkRemaining := -(Value(size, 16) as int)))
  {
    hide AllDigits, Value, SizeToken, ParseInt, At, Find;
    var line := ['-'] + size;
    NegativeLine(size);
    FindLineEnd(line, CRLF + tail);
    assert s.buf[..|line|] == line && s.buf[|line| + 2..] == CRLF + tail;
    assert (CRLF + tail)[2..] == tail && CRLF <= CRLF + tail;
    var s' := s.(buf := CRLF + tail, chunkRemaining := -(Value(size, 16) as int), awaitingSize := false);
    assert (CRLF + tail)[..0] == [] && s.body + [] == s.body;
    assert TakeChunk(s') == s';
  }

  lemma NegativeLine(size: Bytes)
    requires AllDigits(size, 16)
    ensures Find(['-'] + size, CRLF) == -1
    ensures ParseInt(SizeToken(['-'] + size), 16) == Some(-(Value(size, 16) as int))
  {
    hide Value, ParseInt, Numeral;
    var line := ['-'] + size;
    forall i: nat | i < |size| ensures size[i] != '\r' && size[i] != ';' && !AsciiSpace(size[i]) {
      HexDigitBytes(size, i);
    }
    NoLineEnd(line);
    forall j ensures !At(line, [';'], j) {
      if 0 <= j < |line| {
        assert line[j..j + 1][0] == line[j];
      }
    }
    assert line[|line| - 1] == size[|size| - 1];
    StripIdentity(line, AsciiSpace);
    SignedDigits(size, 16);
  }
}
