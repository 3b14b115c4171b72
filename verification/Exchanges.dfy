/** One request and its response on one connection, and the rule for sending a request again. */
module Exchanges {
  import opened ByteStrings
  import opened HeaderMap
  import opened ParserSpec
  import opened Segmentation
  import opened Framing
  import opened TlsRead
  import opened HttpParser
  import opened FieldLists
  import opened MessageFraming
  import PyInt
  import Requests

  datatype Failure =
    | Unencodable
    | WriteFailed(why: Reason)
    | ReadFailed(why: Reason)
    | ParseFailed(error: HttpError)
    | ClosedEarly
    | ConnectFailed(why: Reason)

  /** How `_exchange` ends; `Blocked` is an exchange still waiting for its next read. */
  datatype Result =
    | Returned(response: Response, keep: bool)
    | Stale
    | Raised(failure: Failure)
    | Blocked

  /** Whether the connection goes back to the pool. */
  predicate Reusable(untilClose: bool, response: Response) {
    && !untilClose && response.version == "HTTP/1.1"
    && var connection := Get(response.headers, "Connection");
       !Contains(Lower(if connection.Some? then connection.value else []), "close")
  }

  /** A connection is kept exactly after an HTTP/1.1 response not ended by close whose lines do not say close. */
  lemma ReusableExactly(untilClose: bool, response: Response, fields: seq<Line>)
    requires response.headers == FromLines(fields)
    ensures Reusable(untilClose, response) <==>
      !untilClose && response.version == "HTTP/1.1" && !Says(fields, "connection", "close")
  {
    hide Get, Contains, Says, FromLines;
    LowerConnection();
    GetSays(fields, "Connection", "close");
    LowerComma();
    WordInNothing("close");
  }

  lemma LowerConnection()
    ensures Lower("Connection") == "connection"
  {
  }

  /** After the read loop: no response means the stream ended too early. */
  function Conclude(s: State, reused: bool): Result {
    match s.response
    case None => if reused then Stale else Raised(ClosedEarly)
    case Some(response) => Returned(response, Reusable(s.untilClose, response))
  }

  /** The read loop of `_exchange`, given what its reads are told. */
  function ReadLoop(codec: Codec, s: State, replies: seq<Settlement>, reused: bool, received: bool): Result
    decreases |replies|
  {
    if s.phase == Done then Conclude(s, reused)
    else if replies == [] then Blocked
    else
      match replies[0]
      case Rejected(why) => if reused && !received then Stale else Raised(ReadFailed(why))
      case Resolved(chunk) =>
        if chunk == [] then
          if reused && !received then Stale
          else
            match FeedEof(codec, s)
            case Failed(e) => Raised(ParseFailed(e))
            case Ok(s') => Conclude(s', reused)
        else
          match Feed(codec, s, chunk)
          case Failed(e) => Raised(ParseFailed(e))
          case Ok(s') => ReadLoop(codec, s', replies[1..], reused, true)
  }

  /** What the connection did with one request: the outcome of the write, then of each read. */
  datatype Script = Script(write: Option<Reason>, replies: seq<Settlement>)

  function Exchange(codec: Codec, script: Script, reused: bool): Result {
    match script.write
    case Some(why) => if reused then Stale else Raised(WriteFailed(why))
    case None => ReadLoop(codec, INIT, script.replies, reused, false)
  }

  method RunExchange(codec: Codec, script: Script, reused: bool) returns (r: Result)
    ensures r == Exchange(codec, script, reused)
  {
    if script.write.Some? {
      return if reused then Stale else Raised(WriteFailed(script.write.value));
    }
    var parser := new ResponseParser(codec);
    var received := false;
    var i := 0;
    while parser.phase != Done
      invariant 0 <= i <= |script.replies| && fresh(parser) && fresh(parser.headers)
      invariant parser.Valid() && parser.codec == codec
      invariant ReadLoop(codec, parser.Abs(), script.replies[i..], reused, received)
             == ReadLoop(codec, INIT, script.replies, reused, false)
      decreases |script.replies| - i
    {
      if i == |script.replies| {
        return Blocked;
      }
      assert script.replies[i..][1..] == script.replies[i + 1..];
      match script.replies[i] {
        case Rejected(why) =>
          return if reused && !received then Stale else Raised(ReadFailed(why));
        case Resolved(chunk) =>
          if chunk == [] {
            if reused && !received {
              return Stale;
            }
            var err := parser.FeedEof();
            if err.Some? {
              return Raised(ParseFailed(err.value));
            }
            break;
          }
          received := true;
          var err := parser.Feed(chunk);
          if err.Some? {
            return Raised(ParseFailed(err.value));
          }
          i := i + 1;
      }
    }
    if parser.response.None? {
      return if reused then Stale else Raised(ClosedEarly);
    }
    return Returned(parser.response.value, Reusable(parser.untilClose, parser.response.value));
  }

  // What an exchange means: the one-shot parse of the bytes that arrived.

  predicate AllData(replies: seq<Settlement>) {
    forall i :: 0 <= i < |replies| ==> replies[i].Resolved? && replies[i].data != []
  }

  /** Data, and possibly the end of stream after it. */
  predicate Clean(replies: seq<Settlement>) {
    AllData(replies) || (Ended(replies) && AllData(replies[..|replies| - 1]))
  }

  predicate Ended(replies: seq<Settlement>) {
    replies != [] && replies[|replies| - 1] == Resolved([])
  }

  function Datas(replies: seq<Settlement>): Bytes {
    if replies == [] then []
    else (if replies[0].Resolved? then replies[0].data else []) + Datas(replies[1..])
  }

  function OneShot(codec: Codec, stream: Bytes, ended: bool, reused: bool): Result {
    match Feed(codec, INIT, stream)
    case Failed(e) => Raised(ParseFailed(e))
    case Ok(s) =>
      if s.phase == Done then Conclude(s, reused)
      else if !ended then Blocked
      else if reused && stream == [] then Stale
      else
        match FeedEof(codec, s)
        case Failed(e) => Raised(ParseFailed(e))
        case Ok(s') => Conclude(s', reused)
  }

  lemma FedSoFar(codec: Codec, p: Bytes, more: Bytes)
    requires Feed(codec, INIT, p).Ok?
    ensures var s := Feed(codec, INIT, p).state;
      && Feed(codec, INIT, p + more) == Feed(codec, s, more)
      && (s.phase == Done ==> Feed(codec, INIT, p + more) == Ok(More(s, more)))
  {
    hide Parse;
    FeedSplit(codec, INIT, p, more);
    var s := Feed(codec, INIT, p).state;
    if s.phase == Done {
      DoneKeepsSurplus(codec, s, more);
    }
  }

  lemma {:induction false} LoopIsOneShot(codec: Codec, p: Bytes, replies: seq<Settlement>, reused: bool)
    requires Feed(codec, INIT, p).Ok? && Clean(replies)
    ensures ReadLoop(codec, Feed(codec, INIT, p).state, replies, reused, p != [])
         == OneShot(codec, p + Datas(replies), Ended(replies), reused)
    decreases |replies|
  {
    hide Parse, Feed, FeedEof, Reusable;
    var s := Feed(codec, INIT, p).state;
    FedSoFar(codec, p, Datas(replies));
    if |replies| > 1 {
      assert replies[..|replies| - 1][0] == replies[0];
    }
    if s.phase == Done {
    } else if replies == [] {
      assert p + Datas(replies) == p;
    } else if replies[0].data == [] {
      assert Ended(replies) && |replies| == 1;
      assert replies[1..] == [];
      assert p + Datas(replies) == p;
    } else {
      var chunk := replies[0].data;
      FedSoFar(codec, p, chunk);
      assert p + Datas(replies) == (p + chunk) + Datas(replies[1..]);
      if Feed(codec, s, chunk).Ok? {
        CleanTail(replies);
        LoopIsOneShot(codec, p + chunk, replies[1..], reused);
      } else {
        FailedStays(codec, p + chunk, Datas(replies[1..]));
      }
    }
  }

  lemma CleanTail(replies: seq<Settlement>)
    requires Clean(replies) && replies != [] && replies[0] != Resolved([])
    ensures Clean(replies[1..]) && Ended(replies[1..]) == Ended(replies)
  {
    if !AllData(replies) {
      assert replies[1..][..|replies| - 2] == replies[..|replies| - 1][1..];
    }
  }

  lemma FailedStays(codec: Codec, p: Bytes, more: Bytes)
    requires Feed(codec, INIT, p).Failed?
    ensures Feed(codec, INIT, p + more) == Feed(codec, INIT, p)
  {
    hide Parse;
    FeedSplit(codec, INIT, p, more);
  }

  // The exchange driving its connection, under every interleaving of its reads with the network.

  function Hows(log: seq<Settled>): (r: seq<Settlement>)
    ensures |r| == |log|
    ensures forall i :: 0 <= i < |log| ==> r[i] == log[i].how
  {
    seq(|log|, i requires 0 <= i < |log| => log[i].how)
  }

  /** A connection with nothing unread and nothing asked of it: fresh, or fresh from the pool. */
  predicate AtRest(n: Net) {
    Inv(n) && !Outstanding(n) && n.conn.buffer == [] && n.conn.err.None?
  }

  /** The reads the exchange has made since it took over the connection at `base`. */
  function Replies(base: Net, n: Net): seq<Settlement> {
    if |base.conn.settled| <= |n.conn.settled| then Hows(n.conn.settled[|base.conn.settled|..]) else []
  }

  function Progress(codec: Codec, base: Net, n: Net, reused: bool): Result {
    ReadLoop(codec, INIT, Replies(base, n), reused, false)
  }

  /** The exchange reads while it is not finished; the network delivers data and end of stream as it likes. */
  predicate CanDrive(codec: Codec, base: Net, n: Net, e: Event, reused: bool) {
    && Enabled(n, e)
    && match e
       case Post(_) => Progress(codec, base, n, reused) == Blocked
       case RunRead => true
       case Data(_) => true
       case Eof => true
       case _ => false
  }

  predicate IsDrive(codec: Codec, base: Net, n: Net, events: seq<Event>, reused: bool)
    decreases |events|
  {
    events == [] || (CanDrive(codec, base, n, events[0], reused)
                     && IsDrive(codec, base, Apply(n, events[0]), events[1..], reused))
  }

  predicate DriveInv(base: Net, n: Net) {
    && Inv(n) && n.conn.err.None?
    && base.conn.settled <= n.conn.settled && base.delivered <= n.delivered
    && Clean(Replies(base, n))
    && (Outstanding(n) ==> !Ended(Replies(base, n)))
  }

  lemma RepliesGrow(base: Net, n: Net, n': Net, s: Settled)
    requires base.conn.settled <= n.conn.settled && n'.conn.settled == n.conn.settled + [s]
    ensures Replies(base, n') == Replies(base, n) + [s.how]
  {
  }

  lemma CleanGrows(replies: seq<Settlement>, how: Settlement)
    requires Clean(replies) && !Ended(replies) && how.Resolved?
    ensures Clean(replies + [how])
  {
    assert (replies + [how])[..|replies|] == replies;
  }

  lemma EndedFinishes(codec: Codec, replies: seq<Settlement>, reused: bool)
    requires Clean(replies) && Ended(replies)
    ensures ReadLoop(codec, INIT, replies, reused, false) != Blocked
  {
    hide Parse;
    InitQuiescent(codec);
    LoopIsOneShot(codec, [], replies, reused);
  }

  lemma DriveStep(codec: Codec, base: Net, n: Net, e: Event, reused: bool)
    requires DriveInv(base, n) && CanDrive(codec, base, n, e, reused)
    ensures DriveInv(base, Apply(n, e))
  {
    hide ReadLoop;
    var n' := Apply(n, e);
    StepKeepsInv(n, e);
    if e.Post? && Ended(Replies(base, n)) {
      EndedFinishes(codec, Replies(base, n), reused);
    }
    if n.posted.Some? && e.RunRead? {
      SubmittedReadSettles(n);
    } else if n.conn.pending.Some? {
      ParkedReadSettles(n, e);
    }
    if n'.conn.settled != n.conn.settled {
      var s := n'.conn.settled[|n.conn.settled|];
      assert n'.conn.settled == n.conn.settled + [s];
      RepliesGrow(base, n, n', s);
      CleanGrows(Replies(base, n), s.how);
    }
  }

  lemma {:induction false} DriveRuns(codec: Codec, base: Net, n: Net, events: seq<Event>, reused: bool)
    requires DriveInv(base, n) && IsDrive(codec, base, n, events, reused)
    ensures DriveInv(base, After(n, events))
    decreases |events|
  {
    if events == [] {
    } else {
      DriveStep(codec, base, n, events[0], reused);
      DriveRuns(codec, base, Apply(n, events[0]), events[1..], reused);
    }
  }

  function DataOf(how: Settlement): Bytes {
    if how.Resolved? then how.data else []
  }

  lemma {:induction false} DatasSnoc(replies: seq<Settlement>, how: Settlement)
    ensures Datas(replies + [how]) == Datas(replies) + DataOf(how)
  {
    hide DataOf;
    if replies == [] {
      assert [] + [how] == [how] && [how][1..] == [];
      DatasFirst([how]);
      assert Datas([]) == [];
    } else {
      var all, tail := replies + [how], replies[1..] + [how];
      assert all[0] == replies[0] && all[1..] == tail;
      DatasFirst(all);
      DatasFirst(replies);
      DatasSnoc(replies[1..], how);
    }
  }

  lemma DatasFirst(replies: seq<Settlement>)
    requires replies != []
    ensures Datas(replies) == DataOf(replies[0]) + Datas(replies[1..])
  {
  }

  lemma {:induction false} ReceivedReplies(base: seq<Settled>, log: seq<Settled>)
    requires base <= log
    ensures Received(log) == Received(base) + Datas(Hows(log[|base|..]))
    decreases |log|
  {
    if |log| > |base| {
      var log' := log[..|log| - 1];
      ReceivedReplies(base, log');
      assert log[|base|..] == log'[|base|..] + [log[|log| - 1]];
      assert Hows(log[|base|..]) == Hows(log'[|base|..]) + [log[|log| - 1].how];
      DatasSnoc(Hows(log'[|base|..]), log[|log| - 1].how);
    } else {
      assert log == base && log[|base|..] == [];
    }
  }

  /** The bytes delivered since the exchange took over. */
  function Delivered(base: Net, n: Net): Bytes {
    if |base.delivered| <= |n.delivered| then n.delivered[|base.delivered|..] else []
  }

  /** When the last read was told the end of stream, everything delivered had been read. */
  lemma EndedIsAll(n: Net)
    requires Inv(n) && n.conn.settled != [] && n.conn.settled[|n.conn.settled| - 1].how == Resolved([])
    ensures n.conn.eof && n.conn.buffer == []
  {
    var log, c := n.conn.settled, n.conn;
    var k := |log| - 1;
    assert Received(log) == Received(log[..k]) + [];
    assert Received(log[..k]) == n.delivered;
    assert Concat(c.buffer) == [];
    if c.buffer != [] {
      ConcatNonEmpty(c.buffer);
    }
  }

  lemma RepliesAre(base: Net, n: Net)
    requires base.conn.settled <= n.conn.settled
    ensures Replies(base, n) == Hows(n.conn.settled[|base.conn.settled|..])
  {
  }

  lemma LastReply(base: Net, n: Net)
    requires base.conn.settled <= n.conn.settled && Ended(Replies(base, n))
    ensures n.conn.settled != [] && n.conn.settled[|n.conn.settled| - 1].how == Resolved([])
  {
    var log, k := n.conn.settled, |base.conn.settled|;
    assert log[k..][|log| - k - 1] == log[|log| - 1];
  }

  lemma RepliesOfStream(base: Net, n: Net)
    requires AtRest(base) && DriveInv(base, n)
    ensures Delivered(base, n) == Datas(Replies(base, n)) + Concat(n.conn.buffer)
    ensures Ended(Replies(base, n)) ==> n.conn.eof && n.conn.buffer == []
  {
    hide Datas, Received, Concat, Clean, Replies, LogInv, Hows;
    ReceivedReplies(base.conn.settled, n.conn.settled);
    ConcatNothing();
    RepliesAre(base, n);
    var told, left := Datas(Replies(base, n)), Concat(n.conn.buffer);
    assert n.delivered == base.delivered + told + left == base.delivered + (told + left);
    if Ended(Replies(base, n)) {
      LastReply(base, n);
      EndedIsAll(n);
    }
  }

  /** A verdict reached on part of the stream is the verdict on the whole of it. */
  lemma OneShotExtends(codec: Codec, stream: Bytes, rest: Bytes, ended: bool, eof: bool, reused: bool)
    requires OneShot(codec, stream, ended, reused) != Blocked
    requires ended ==> rest == [] && eof
    ensures OneShot(codec, stream + rest, eof, reused) == OneShot(codec, stream, ended, reused)
  {
    hide Parse, FeedEof, Reusable;
    match Feed(codec, INIT, stream)
    case Failed(_) => FailedStays(codec, stream, rest);
    case Ok(s) =>
      FedSoFar(codec, stream, rest);
      if ended {
        assert stream + rest == stream;
      }
  }

  /**
   * Schedule independence: however the loop orders the exchange's reads, the data and the end of stream, and
   * however reads coalesce buffered chunks, an exchange that finishes has the result of the one-shot parse of
   * everything delivered; and one that is parked is parked because those bytes do not decide it.
   */
  lemma ScheduleIndependence(codec: Codec, base: Net, events: seq<Event>, reused: bool)
    requires AtRest(base) && IsDrive(codec, base, base, events, reused)
    ensures var n := After(base, events);
      var r, whole := Progress(codec, base, n, reused), OneShot(codec, Delivered(base, n), n.conn.eof, reused);
      && (r != Blocked ==> r == whole)
      && (r == Blocked && n.conn.pending.Some? ==> whole == Blocked)
      && (r == Blocked && !Outstanding(n) ==> forall ms :: CanDrive(codec, base, n, Post(ms), reused))
  {
    hide ReadLoop, OneShot, Feed;
    DriveRuns(codec, base, base, events, reused);
    var n := After(base, events);
    var replies := Replies(base, n);
    RepliesOfStream(base, n);
    InitFed(codec);
    LoopIsOneShot(codec, [], replies, reused);
    assert [] + Datas(replies) == Datas(replies);
    if Progress(codec, base, n, reused) != Blocked {
      OneShotExtends(codec, Datas(replies), Concat(n.conn.buffer), Ended(replies), n.conn.eof, reused);
    } else if n.conn.pending.Some? {
      assert Datas(replies) + Concat(n.conn.buffer) == Datas(replies);
    }
  }

  lemma InitFed(codec: Codec)
    ensures Feed(codec, INIT, []) == Ok(INIT)
  {
    InitQuiescent(codec);
  }

  // What an exchange leaves behind on its connection.

  lemma WaitingStep(codec: Codec, base: Net, n: Net, e: Event, reused: bool)
    requires DriveInv(base, n) && CanDrive(codec, base, n, e, reused)
    requires Outstanding(n) ==> Progress(codec, base, n, reused) == Blocked
    ensures Outstanding(Apply(n, e)) ==> Progress(codec, base, Apply(n, e), reused) == Blocked
  {
    hide ReadLoop;
    if n.posted.Some? && e.RunRead? {
      SubmittedReadSettles(n);
    } else if n.conn.pending.Some? {
      ParkedReadSettles(n, e);
    }
    assert Outstanding(Apply(n, e)) ==> Apply(n, e).conn.settled == n.conn.settled;
  }

  /** A finished exchange has no read outstanding. */
  lemma {:induction false} WaitingIsBlocked(codec: Codec, base: Net, n: Net, events: seq<Event>, reused: bool)
    requires DriveInv(base, n) && IsDrive(codec, base, n, events, reused)
    requires Outstanding(n) ==> Progress(codec, base, n, reused) == Blocked
    ensures Outstanding(After(n, events)) ==> Progress(codec, base, After(n, events), reused) == Blocked
    decreases |events|
  {
    hide Progress, Apply, Enabled;
    if events == [] {
    } else {
      WaitingStep(codec, base, n, events[0], reused);
      DriveStep(codec, base, n, events[0], reused);
      WaitingIsBlocked(codec, base, Apply(n, events[0]), events[1..], reused);
    }
  }

  /** A response that came without the end of the stream has used up the whole answer and nothing else. */
  lemma WholeAnswer(codec: Codec, replies: seq<Settlement>, own: Bytes, reused: bool)
    requires SelfDelimited(codec, own) && Clean(replies) && !Ended(replies) && Datas(replies) <= own
    requires ReadLoop(codec, INIT, replies, reused, false).Returned?
    ensures Datas(replies) == own
  {
    hide ReadLoop, Feed, Parse, FeedEof, SelfDelimited;
    InitFed(codec);
    LoopIsOneShot(codec, [], replies, reused);
    assert [] + Datas(replies) == Datas(replies);
    ExactConsumption(codec, own, Datas(replies), []);
  }

  /**
   * What makes pooling sound: if the peer has sent nothing but (part of) one self-delimited answer, an exchange that
   * returns leaves the connection as it found it, with no read outstanding and nothing unread in the core, whatever
   * the schedule was. So the next exchange on it starts from where `ScheduleIndependence` does.
   */
  lemma ReturnsAtRest(codec: Codec, base: Net, events: seq<Event>, reused: bool, own: Bytes)
    requires AtRest(base) && IsDrive(codec, base, base, events, reused)
    requires SelfDelimited(codec, own) && Delivered(base, After(base, events)) <= own
    requires Progress(codec, base, After(base, events), reused).Returned?
    ensures var n := After(base, events);
      && AtRest(n)
      && (Delivered(base, n) == own || n.conn.eof)
  {
    hide ReadLoop, SelfDelimited;
    var n := After(base, events);
    var replies := Replies(base, n);
    DriveRuns(codec, base, base, events, reused);
    WaitingIsBlocked(codec, base, base, events, reused);
    RepliesOfStream(base, n);
    if !Ended(replies) {
      assert Datas(replies) <= Delivered(base, n);
      WholeAnswer(codec, replies, own, reused);
      assert Concat(n.conn.buffer) == [];
      if n.conn.buffer != [] {
        ConcatNonEmpty(n.conn.buffer);
      }
    }
  }

  // Sending again.

  /** The replies bring data and then the end of stream at a point where the parser neither completes nor raises. */
  ghost predicate EndsOpen(codec: Codec, p: Bytes, replies: seq<Settlement>) {
    exists k :: 0 <= k < |replies| && EndsOpenAt(codec, p, replies, k)
  }

  predicate EndsOpenAt(codec: Codec, p: Bytes, replies: seq<Settlement>, k: nat)
    requires k < |replies|
  {
    && AllData(replies[..k]) && replies[k] == Resolved([])
    && var r := Feed(codec, INIT, p + Datas(replies[..k]));
       r.Ok? && StaysOpen(r.state)
  }

  lemma FeedFramed(codec: Codec, p: Bytes)
    ensures Feed(codec, INIT, p).Ok? ==> Framed(Feed(codec, INIT, p).state)
  {
    hide Parse;
    ParseAdvances(codec, More(INIT, p));
  }

  /** End of stream after some data: `response is None` is exactly `StaysOpen`. */
  lemma EofConcludes(codec: Codec, p: Bytes)
    requires Feed(codec, INIT, p).Ok? && Feed(codec, INIT, p).state.phase != Done
    ensures var s := Feed(codec, INIT, p).state;
      (FeedEof(codec, s).Ok? && Conclude(FeedEof(codec, s).state, true) == Stale) <==> StaysOpen(s)
  {
    hide Parse, Feed, FeedEof, Decompress, Reusable;
    EarlyEof(codec, p);
    FeedFramed(codec, p);
  }

  lemma OpenAtFirst(codec: Codec, p: Bytes, replies: seq<Settlement>)
    requires replies != [] && !(replies[0].Resolved? && replies[0].data != [])
    ensures EndsOpen(codec, p, replies) <==>
      replies[0] == Resolved([]) && Feed(codec, INIT, p).Ok? && StaysOpen(Feed(codec, INIT, p).state)
  {
    hide Feed;
    assert replies[..0] == [] && p + Datas([]) == p;
    forall k: nat | 0 < k < |replies| ensures !EndsOpenAt(codec, p, replies, k) {
      assert replies[..k][0] == replies[0];
    }
    if replies[0] == Resolved([]) && Feed(codec, INIT, p).Ok? && StaysOpen(Feed(codec, INIT, p).state) {
      assert EndsOpenAt(codec, p, replies, 0);
    }
  }

  lemma OpenShifts(codec: Codec, p: Bytes, replies: seq<Settlement>, k: nat)
    requires k + 1 < |replies| && replies[0].Resolved? && replies[0].data != []
    ensures EndsOpenAt(codec, p, replies, k + 1) <==> EndsOpenAt(codec, p + replies[0].data, replies[1..], k)
  {
    hide Feed, Datas;
    var now, later := replies[..k + 1], replies[1..][..k];
    assert now == [replies[0]] + later && now[1..] == later;
    DatasFirst(now);
    assert p + (replies[0].data + Datas(later)) == p + replies[0].data + Datas(later);
    assert AllData(now) <==> AllData(later) by {
      assert forall i :: 0 <= i < |later| ==> now[i + 1] == later[i];
    }
  }

  lemma NotOpenYet(codec: Codec, p: Bytes, replies: seq<Settlement>)
    requires replies != [] && replies[0].Resolved? && replies[0].data != []
    ensures !EndsOpenAt(codec, p, replies, 0)
  {
    hide Feed;
  }

  lemma OpenLater(codec: Codec, p: Bytes, replies: seq<Settlement>)
    requires replies != [] && replies[0].Resolved? && replies[0].data != []
    ensures EndsOpen(codec, p, replies) <==> EndsOpen(codec, p + replies[0].data, replies[1..])
  {
    hide EndsOpenAt;
    forall k: nat | k < |replies[1..]|
      ensures EndsOpenAt(codec, p, replies, k + 1) <==> EndsOpenAt(codec, p + replies[0].data, replies[1..], k)
    {
      OpenShifts(codec, p, replies, k);
    }
    NotOpenYet(codec, p, replies);
    if EndsOpen(codec, p, replies) {
      var k :| 0 <= k < |replies| && EndsOpenAt(codec, p, replies, k);
      assert k > 0;
      assert EndsOpenAt(codec, p + replies[0].data, replies[1..], k - 1);
    }
    if EndsOpen(codec, p + replies[0].data, replies[1..]) {
      var k :| 0 <= k < |replies[1..]| && EndsOpenAt(codec, p + replies[0].data, replies[1..], k);
      assert EndsOpenAt(codec, p, replies, k + 1);
    }
  }

  lemma DecidedNotOpen(codec: Codec, p: Bytes, replies: seq<Settlement>)
    requires Feed(codec, INIT, p).Failed? || Feed(codec, INIT, p).state.phase == Done
    ensures !EndsOpen(codec, p, replies)
  {
    hide Parse;
    forall k: nat | k < |replies| ensures !EndsOpenAt(codec, p, replies, k) {
      if Feed(codec, INIT, p).Failed? {
        FailedStays(codec, p, Datas(replies[..k]));
      } else {
        FedSoFar(codec, p, Datas(replies[..k]));
      }
    }
  }

  lemma {:induction false} StaleAfterData(codec: Codec, p: Bytes, replies: seq<Settlement>)
    requires Feed(codec, INIT, p).Ok?
    ensures ReadLoop(codec, Feed(codec, INIT, p).state, replies, true, true) == Stale <==> EndsOpen(codec, p, replies)
    decreases |replies|
  {
    hide Parse, Feed, FeedEof, Reusable, EndsOpen;
    var s := Feed(codec, INIT, p).state;
    FeedFramed(codec, p);
    if s.phase == Done {
      DecidedNotOpen(codec, p, replies);
    } else if replies == [] {
      NothingOpen(codec, p);
    } else if replies[0].Resolved? && replies[0].data != [] {
      var chunk := replies[0].data;
      OpenLater(codec, p, replies);
      FedSoFar(codec, p, chunk);
      if Feed(codec, s, chunk).Ok? {
        StaleAfterData(codec, p + chunk, replies[1..]);
      } else {
        DecidedNotOpen(codec, p + chunk, replies[1..]);
      }
    } else {
      OpenAtFirst(codec, p, replies);
      EofConcludes(codec, p);
    }
  }

  lemma NothingOpen(codec: Codec, p: Bytes)
    ensures !EndsOpen(codec, p, [])
  {
  }

  /**
   * The write failed, or the first read failed or found the end of stream, or bytes did arrive and the stream then
   * ended right after the status line or on a chunk boundary.
   */
  ghost predicate GoesStale(codec: Codec, script: Script) {
    || script.write.Some?
    || (script.replies != [] && (script.replies[0].Rejected? || script.replies[0] == Resolved([])))
    || (script.replies != [] && script.replies[0] != Resolved([]) && EndsOpen(codec, [], script.replies))
  }

  /** Exactly when an exchange on a pooled connection is given up as stale. */
  lemma StaleExactly(codec: Codec, script: Script)
    ensures Exchange(codec, script, true) == Stale <==> GoesStale(codec, script)
  {
    hide Parse, FeedEof, Reusable, EndsOpen;
    InitFed(codec);
    if script.write.None? && script.replies != [] && script.replies[0].Resolved? && script.replies[0].data != [] {
      var chunk := script.replies[0].data;
      assert [] + chunk == chunk;
      OpenLater(codec, [], script.replies);
      if Feed(codec, INIT, chunk).Ok? {
        StaleAfterData(codec, chunk, script.replies[1..]);
      } else {
        DecidedNotOpen(codec, chunk, script.replies[1..]);
      }
    }
  }

  /** Where a stream that brought bytes may end and still be sent again: nothing buffered, and only these two places. */
  lemma OpenPlaces(codec: Codec, p: Bytes)
    requires p != [] && Feed(codec, INIT, p).Ok? && StaysOpen(Feed(codec, INIT, p).state)
    ensures var s := Feed(codec, INIT, p).state;
      s.buf == [] && (s.phase == Head || (s.phase == Body && s.chunked && s.awaitingSize && !s.inTrailers))
  {
    var s := Feed(codec, INIT, p).state;
    if s.phase == Status {
      StillStatus(codec, p);
    }
  }

  lemma StillStatus(codec: Codec, p: Bytes)
    requires Feed(codec, INIT, p).Ok? && Feed(codec, INIT, p).state.phase == Status
    ensures Feed(codec, INIT, p).state.buf == p
  {
    hide ParseStatusLine, HeadStage, BodyStage;
    var s := More(INIT, p);
    assert s.buf == p;
    StatusMore(s, []);
    StatusAdvances(s);
    var r := StatusStage(s);
    if r.Ok? && r.state.phase != Status {
      HeadThenBodyMore(codec, r.state, []);
    } else {
      LaterStagesIdle(codec, s);
    }
  }

  lemma LaterStagesIdle(codec: Codec, s: State)
    requires s.phase == Status
    ensures HeadStage(codec, s) == Ok(s) && BodyStage(codec, s) == Ok(s)
  {
  }

  // The client's `_perform`.

  /** `sent` is what was handed to a connection's write, in order. */
  datatype Performed = Performed(result: Result, sent: seq<Bytes>, connects: nat)

  function PerformRaw(
    codec: Codec, raw: Bytes, pooled: Option<Script>, connect: Option<Reason>, renewed: Script): Performed
  {
    var first := if pooled.Some? then Exchange(codec, pooled.value, true) else Stale;
    var sent := if pooled.Some? then [raw] else [];
    if first != Stale then Performed(first, sent, 0)
    else if connect.Some? then Performed(Raised(ConnectFailed(connect.value)), sent, 1)
    else Performed(Exchange(codec, renewed, false), sent + [raw], 1)
  }

  /** `connect` is how a fresh connection attempt fails, if it does. */
  function Perform(
    codec: Codec, request: Requests.Request, pooled: Option<Script>, connect: Option<Reason>, renewed: Script)
    : Performed
  {
    match Requests.Render(request)
    case None => Performed(Raised(Unencodable), [], 0)
    case Some(raw) => PerformRaw(codec, raw, pooled, connect, renewed)
  }

  method RunPerform(
    codec: Codec, request: Requests.Request, pooled: Option<Script>, connect: Option<Reason>, renewed: Script)
    returns (r: Result, sent: seq<Bytes>, connects: nat)
    ensures Performed(r, sent, connects) == Perform(codec, request, pooled, connect, renewed)
  {
    sent, connects := [], 0;
    var raw := Requests.BuildRequest(request);
    if raw.None? {
      return Raised(Unencodable), [], 0;
    }
    if pooled.Some? {
      sent := [raw.value];
      r := RunExchange(codec, pooled.value, true);
      if r != Stale {
        return;
      }
    }
    connects := 1;
    if connect.Some? {
      return Raised(ConnectFailed(connect.value)), sent, connects;
    }
    sent := sent + [raw.value];
    r := RunExchange(codec, renewed, false);
  }

  lemma {:induction false} NeverStaleWhenFresh(codec: Codec, s: State, replies: seq<Settlement>, received: bool)
    ensures ReadLoop(codec, s, replies, false, received) != Stale
    decreases |replies|
  {
    hide Parse, Reusable, Feed, FeedEof;
    if s.phase != Done && replies != [] && replies[0].Resolved? && replies[0].data != [] {
      var next := Feed(codec, s, replies[0].data);
      if next.Ok? {
        NeverStaleWhenFresh(codec, next.state, replies[1..], true);
      }
    }
  }

  /**
   * The resend rule: what is transmitted is the request, at most twice, and at most one fresh connection is opened;
   * it is transmitted twice only after a pooled connection went stale, and staleness never reaches the caller.
   */
  lemma ResendRule(
    codec: Codec, request: Requests.Request, pooled: Option<Script>, connect: Option<Reason>, renewed: Script)
    ensures var p, raw := Perform(codec, request, pooled, connect, renewed), Requests.Render(request);
      && (forall bytes :: bytes in p.sent ==> raw == Some(bytes))
      && |p.sent| <= 2 && p.connects <= 1 && p.result != Stale
      && (|p.sent| == 2 <==> raw.Some? && pooled.Some? && GoesStale(codec, pooled.value) && connect.None?)
      && (p.connects == 1 <==> raw.Some? && (pooled.None? || GoesStale(codec, pooled.value)))
  {
    hide GoesStale, Requests.Render, Exchange, ReadLoop;
    if pooled.Some? {
      StaleExactly(codec, pooled.value);
    }
    FreshIsNotStale(codec, renewed);
  }

  lemma FreshIsNotStale(codec: Codec, script: Script)
    ensures Exchange(codec, script, false) != Stale
  {
    hide ReadLoop;
    NeverStaleWhenFresh(codec, INIT, script.replies, false);
  }

  /** Section 9.2.2 of RFC 9110. */
  predicate Idempotent(verb: string) {
    verb == "GET" || verb == "HEAD" || verb == "PUT" || verb == "DELETE" || verb == "OPTIONS" || verb == "TRACE"
  }

  /**
   * The promise that only idempotent requests are sent again is kept by a request exactly when it is idempotent or
   * its pooled connection, if there is one, does not go stale, or no fresh connection can be made.
   */
  lemma IdempotentRetriesExactly(
    codec: Codec, request: Requests.Request, pooled: Option<Script>, connect: Option<Reason>, renewed: Script)
    requires Requests.Render(request).Some?
    ensures var sent := Perform(codec, request, pooled, connect, renewed).sent;
      (|sent| == 2 ==> Idempotent(request.verb))
      <==> Idempotent(request.verb) || pooled.None? || !GoesStale(codec, pooled.value) || connect.Some?
  {
    hide GoesStale, Perform, Requests.Render;
    ResendRule(codec, request, pooled, connect, renewed);
  }

  const POST := Requests.Request("POST", "/", "h", [], Some("x"))

  lemma PostRenders()
    ensures Requests.Render(POST).Some?
  {
    hide Requests.Render;
    Requests.RequestReadsBack(POST, []);
  }

  /** A POST whose pooled connection takes it and is closed before a byte of the response: it goes out twice. */
  lemma PostSentTwice(codec: Codec, renewed: Script)
    ensures Requests.Render(POST).Some? && !Idempotent(POST.verb)
    ensures var raw := Requests.Render(POST).value;
      Perform(codec, POST, Some(Script(None, [Resolved([])])), None, renewed).sent == [raw, raw]
  {
    hide Requests.Render, ReadLoop;
    PostRenders();
    var script := Script(None, [Resolved([])]);
    StaleExactly(codec, script);
    assert [Requests.Render(POST).value] + [Requests.Render(POST).value]
        == [Requests.Render(POST).value, Requests.Render(POST).value];
  }

  lemma {:induction false} LoopKeepsVerdict(
    codec: Codec, s: State, replies: seq<Settlement>, more: seq<Settlement>, reused: bool, received: bool)
    requires ReadLoop(codec, s, replies, reused, received) != Blocked
    ensures ReadLoop(codec, s, replies + more, reused, received) == ReadLoop(codec, s, replies, reused, received)
    decreases |replies|
  {
    hide Parse, Reusable;
    if s.phase != Done && replies != [] {
      assert (replies + more)[0] == replies[0] && (replies + more)[1..] == replies[1..] + more;
      if replies[0].Resolved? && replies[0].data != [] && Feed(codec, s, replies[0].data).Ok? {
        LoopKeepsVerdict(codec, Feed(codec, s, replies[0].data).state, replies[1..], more, reused, true);
      }
    }
  }

  /** A malformed response is reported, never sent again: its error is the one the parser raises on those bytes. */
  lemma MalformedIsReported(
    codec: Codec, request: Requests.Request, script: Script, k: nat, connect: Option<Reason>, renewed: Script)
    requires Requests.Render(request).Some?
    requires script.write.None? && k <= |script.replies| && AllData(script.replies[..k])
    requires Feed(codec, INIT, Datas(script.replies[..k])).Failed?
    ensures Perform(codec, request, Some(script), connect, renewed)
         == Performed(Raised(ParseFailed(Feed(codec, INIT, Datas(script.replies[..k])).error)),
                      [Requests.Render(request).value], 0)
  {
    hide Parse, Reusable, Requests.Render;
    var seen := script.replies[..k];
    InitFed(codec);
    LoopIsOneShot(codec, [], seen, true);
    assert [] + Datas(seen) == Datas(seen);
    LoopKeepsVerdict(codec, INIT, seen, script.replies[k..], true, false);
    assert seen + script.replies[k..] == script.replies;
  }

  // What `_perform` returns.

  /** A fresh connection is the one whose result counts: there is no pooled one, or it goes stale. */
  ghost predicate OnFresh(codec: Codec, request: Requests.Request, pooled: Option<Script>) {
    Requests.Render(request).Some? && (pooled.None? || GoesStale(codec, pooled.value))
  }

  /** The pooled connection's result counts. */
  ghost predicate OnPooled(codec: Codec, request: Requests.Request, pooled: Option<Script>) {
    Requests.Render(request).Some? && pooled.Some? && !GoesStale(codec, pooled.value)
  }

  /** The write succeeds and the reads bring these bytes, in any pieces, and possibly the end of the stream. */
  predicate Brings(script: Script, stream: Bytes) {
    script.write.None? && Clean(script.replies) && Datas(script.replies) == stream
  }

  lemma ExchangeIsOneShot(codec: Codec, script: Script, reused: bool)
    requires script.write.None? && Clean(script.replies)
    ensures Exchange(codec, script, reused)
         == OneShot(codec, Datas(script.replies), Ended(script.replies), reused)
  {
    hide ReadLoop, OneShot, Clean, Ended, Datas;
    InitFed(codec);
    LoopIsOneShot(codec, [], script.replies, reused);
    assert [] + Datas(script.replies) == Datas(script.replies);
  }

  /** On clean replies the result is that of parsing what the counting connection delivered, in one piece. */
  lemma PerformReturns(
    codec: Codec, request: Requests.Request, pooled: Option<Script>, connect: Option<Reason>, renewed: Script)
    ensures var p := Perform(codec, request, pooled, connect, renewed);
      && (OnFresh(codec, request, pooled) && connect.None? && renewed.write.None? && Clean(renewed.replies) ==>
            p.result == OneShot(codec, Datas(renewed.replies), Ended(renewed.replies), false))
      && (OnPooled(codec, request, pooled) && Clean(pooled.value.replies) ==>
            && p.result == OneShot(codec, Datas(pooled.value.replies), Ended(pooled.value.replies), true)
            && p.sent == [Requests.Render(request).value] && p.connects == 0)
  {
    hide Exchange, GoesStale, OneShot, Clean, Datas, Ended, Requests.Render;
    if pooled.Some? {
      StaleExactly(codec, pooled.value);
      if OnPooled(codec, request, pooled) && Clean(pooled.value.replies) {
        NotStaleWrote(codec, pooled.value);
        ExchangeIsOneShot(codec, pooled.value, true);
      }
    }
    if renewed.write.None? && Clean(renewed.replies) {
      ExchangeIsOneShot(codec, renewed, false);
    }
  }

  lemma NotStaleWrote(codec: Codec, script: Script)
    requires !GoesStale(codec, script)
    ensures script.write.None?
  {
  }

  lemma OneShotWhole(codec: Codec, message: Bytes, rest: Bytes, ended: bool, reused: bool)
    requires SelfDelimited(codec, message)
    ensures Feed(codec, INIT, message).state.response.Some?
    ensures var s := Feed(codec, INIT, message).state;
      OneShot(codec, message + rest, ended, reused)
        == Returned(s.response.value, Reusable(s.untilClose, s.response.value))
  {
    hide Parse, Reusable;
    FeedFramed(codec, message);
    ExactConsumption(codec, message, [], rest);
  }

  /**
   * A request answered with one self-delimiting message returns the response that message parses to, whatever pieces
   * it came in and whatever came after it.
   */
  lemma PerformReturnsAnswer(
    codec: Codec, request: Requests.Request, pooled: Option<Script>, connect: Option<Reason>, renewed: Script,
    message: Bytes, rest: Bytes)
    requires SelfDelimited(codec, message)
    ensures Feed(codec, INIT, message).state.response.Some?
    ensures var p, s := Perform(codec, request, pooled, connect, renewed), Feed(codec, INIT, message).state;
      var returned := Returned(s.response.value, Reusable(s.untilClose, s.response.value));
      && (OnFresh(codec, request, pooled) && connect.None? && Brings(renewed, message + rest) ==> p.result == returned)
      && (OnPooled(codec, request, pooled) && Brings(pooled.value, message + rest) ==> p.result == returned)
  {
    hide Perform, OnFresh, GoesStale, OneShot, Clean, Datas, Ended, Reusable, Feed, SelfDelimited, Requests.Render;
    PerformReturns(codec, request, pooled, connect, renewed);
    OneShotWhole(codec, message, rest, Ended(renewed.replies), false);
    if pooled.Some? {
      OneShotWhole(codec, message, rest, Ended(pooled.value.replies), true);
    }
  }

  /** For one, a fresh connection and a response with a Content-Length: its status, fields and content are returned. */
  lemma PerformReturnsLength(
    codec: Codec, request: Requests.Request, pooled: Option<Script>, renewed: Script,
    h: HeadText, length: Bytes, body: Bytes)
    requires OnFresh(codec, request, pooled) && Brings(renewed, Text(h) + body)
    requires IsHead(h) && !Chunked(h) && !Bodiless(h)
    requires Lengths(h) == [length] && PyInt.AllDigits(length, 10) && PyInt.Value(length, 10) == |body|
    requires Decompress(codec, FromLines(h.fields), body).Some?
    ensures var keep := h.said.version == "HTTP/1.1" && !Says(h.fields, "connection", "close");
      Perform(codec, request, pooled, None, renewed).result
        == Returned(Answer(h, Decompress(codec, FromLines(h.fields), body).value), keep)
  {
    hide Perform, OnFresh, Clean, Datas, Reusable, Feed, SelfDelimited, IsHead, Chunked, Bodiless, Decompress,
         FromLines, Says, Requests.Render;
    var message := Text(h) + body;
    LengthMessage(codec, h, length, body, [], []);
    assert message + [] == message;
    PerformReturnsAnswer(codec, request, pooled, None, renewed, message, []);
    var s := Feed(codec, INIT, message).state;
    FeedFramed(codec, message);
    LengthNotClose(codec, h, length, body);
    ReusableExactly(s.untilClose, s.response.value, h.fields);
  }

  lemma LengthNotClose(codec: Codec, h: HeadText, length: Bytes, body: Bytes)
    requires IsHead(h) && !Chunked(h) && !Bodiless(h) && Lengths(h) == [length]
    requires Feed(codec, INIT, Text(h) + body).Ok? && Feed(codec, INIT, Text(h) + body).state.phase == Done
    ensures !Feed(codec, INIT, Text(h) + body).state.untilClose
  {
    hide Feed, IsHead, Chunked, Bodiless;
    if Feed(codec, INIT, Text(h) + body).state.untilClose {
      UntilCloseExact(codec, Text(h) + body);
    }
  }

  /** And how it fails: with the reason of the connect, of the write, or of the read that failed. */
  lemma PerformRaises(
    codec: Codec, request: Requests.Request, pooled: Option<Script>, connect: Option<Reason>, renewed: Script,
    why: Reason)
    requires OnFresh(codec, request, pooled)
    ensures connect == Some(why) ==>
      Perform(codec, request, pooled, connect, renewed).result == Raised(ConnectFailed(why))
    ensures connect.None? && renewed.write == Some(why) ==>
      Perform(codec, request, pooled, connect, renewed).result == Raised(WriteFailed(why))
    ensures connect.None? && renewed.write.None? && BreaksOff(codec, renewed.replies, why) ==>
      Perform(codec, request, pooled, connect, renewed).result == Raised(ReadFailed(why))
  {
    hide GoesStale, Requests.Render, BreaksOff, ReadLoop;
    if pooled.Some? {
      StaleExactly(codec, pooled.value);
    }
    if BreaksOff(codec, renewed.replies, why) {
      BreakRaises(codec, renewed.replies, why, false);
    }
  }

  /** On a pooled connection, once the response has begun. */
  lemma PooledRaises(
    codec: Codec, request: Requests.Request, pooled: Script, connect: Option<Reason>, renewed: Script, why: Reason)
    requires Requests.Render(request).Some? && pooled.write.None?
    requires BreaksOff(codec, pooled.replies, why) && |pooled.replies| > 1
    ensures Perform(codec, request, Some(pooled), connect, renewed)
         == Performed(Raised(ReadFailed(why)), [Requests.Render(request).value], 0)
  {
    hide Requests.Render, BreaksOff, ReadLoop;
    assert pooled == Script(None, pooled.replies);
    BreakRaises(codec, pooled.replies, why, true);
  }

  lemma {:induction false} LoopEncoded(codec: Codec, s: State, replies: seq<Settlement>, reused: bool, received: bool)
    ensures ReadLoop(codec, s, replies, reused, received) != Raised(Unencodable)
    decreases |replies|
  {
    hide Parse, Reusable, Feed, FeedEof;
    if s.phase != Done && replies != [] && replies[0].Resolved? && replies[0].data != [] {
      var next := Feed(codec, s, replies[0].data);
      if next.Ok? {
        LoopEncoded(codec, next.state, replies[1..], reused, true);
      }
    }
  }

  /** A request with text outside Latin-1, and no other, is refused: nothing is sent, and no connection opened. */
  lemma RefusedExactly(
    codec: Codec, request: Requests.Request, pooled: Option<Script>, connect: Option<Reason>, renewed: Script)
    ensures var p := Perform(codec, request, pooled, connect, renewed);
      && (p.result == Raised(Unencodable) <==> !Requests.Encodable(request))
      && (!Requests.Encodable(request) ==> p.sent == [] && p.connects == 0)
  {
    hide Requests.Render, ReadLoop, Requests.Encodable;
    Requests.EncodableExactly(request);
    if pooled.Some? {
      LoopEncoded(codec, INIT, pooled.value.replies, true, false);
    }
    LoopEncoded(codec, INIT, renewed.replies, false, false);
  }

  /** Data that do not decide the response, and then a read that fails. */
  predicate BreaksOff(codec: Codec, replies: seq<Settlement>, why: Reason) {
    && replies != [] && replies[|replies| - 1] == Settlement.Rejected(why)
    && AllData(replies[..|replies| - 1])
    && var r := Feed(codec, INIT, Datas(replies[..|replies| - 1])); r.Ok? && r.state.phase != Done
  }

  lemma {:induction false} LoopAfter(codec: Codec, p: Bytes, replies: seq<Settlement>, how: Settlement, reused: bool)
    requires AllData(replies)
    requires Feed(codec, INIT, p + Datas(replies)).Ok? && Feed(codec, INIT, p + Datas(replies)).state.phase != Done
    ensures Feed(codec, INIT, p).Ok?
    ensures ReadLoop(codec, Feed(codec, INIT, p).state, replies + [how], reused, p != [])
         == ReadLoop(codec, Feed(codec, INIT, p + Datas(replies)).state, [how], reused, p + Datas(replies) != [])
    decreases |replies|
  {
    hide Parse, Feed, FeedEof, Reusable;
    if Feed(codec, INIT, p).Failed? {
      FailedStays(codec, p, Datas(replies));
    }
    if replies == [] {
      assert [] + [how] == [how] && p + Datas(replies) == p;
    } else {
      var chunk := replies[0].data;
      FedSoFar(codec, p, Datas(replies));
      assert (replies + [how])[0] == replies[0] && (replies + [how])[1..] == replies[1..] + [how];
      assert p + chunk + Datas(replies[1..]) == p + Datas(replies);
      LoopAfter(codec, p + chunk, replies[1..], how, reused);
      FedSoFar(codec, p, chunk);
    }
  }

  lemma LoopOne(codec: Codec, s: State, how: Settlement, reused: bool, received: bool)
    requires s.phase != Done
    ensures ReadLoop(codec, s, [how], reused, received) ==
      match how
      case Rejected(why) => if reused && !received then Stale else Raised(Failure.ReadFailed(why))
      case Resolved(chunk) =>
        if chunk == [] then
          if reused && !received then Stale
          else
            match FeedEof(codec, s)
            case Failed(e) => Raised(ParseFailed(e))
            case Ok(s') => Conclude(s', reused)
        else
          match Feed(codec, s, chunk)
          case Failed(e) => Raised(ParseFailed(e))
          case Ok(s') => if s'.phase == Done then Conclude(s', reused) else Blocked
  {
    hide Parse, Reusable;
    assert [how][1..] == [];
  }

  /** A read that fails before the response is decided raises, or is stale if it is the first on a pooled connection. */
  lemma BreakRaises(codec: Codec, replies: seq<Settlement>, why: Reason, reused: bool)
    requires BreaksOff(codec, replies, why)
    ensures Exchange(codec, Script(None, replies), reused)
         == if reused && |replies| == 1 then Stale else Raised(ReadFailed(why))
  {
    hide ReadLoop, Feed;
    var seen := replies[..|replies| - 1];
    assert replies == seen + [Settlement.Rejected(why)];
    assert [] + Datas(seen) == Datas(seen);
    InitFed(codec);
    LoopAfter(codec, [], seen, Settlement.Rejected(why), reused);
    LoopOne(codec, Feed(codec, INIT, Datas(seen)).state, Settlement.Rejected(why), reused, Datas(seen) != []);
    if seen != [] {
      DatasFirst(seen);
    }
  }
}
