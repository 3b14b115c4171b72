/**
 * The pool's model is built from the others: what it lets a read find is what a TLS connection tells it, and what it
 * makes of its reads is what the read loop of the client makes of them.
 */
module Refinement {
  import opened ByteStrings
  import opened ParserSpec
  import opened Segmentation
  import opened Framing
  import TlsRead
  import opened Exchanges
  import opened ConnectionPool

  type Settlement = TlsRead.Settlement
  type Net = TlsRead.Net

  // Every task's exchange is a run of the read loop.

  /** What an event tells the read of task `t`, if it ends one. `why` is how reads fail. */
  function Tells(t: nat, e: Event, why: TlsRead.Reason): seq<Settlement> {
    match e
    case Chunk(u, data) => if u == t then [TlsRead.Resolved(data)] else []
    case Eof(u) => if u == t then [TlsRead.Resolved([])] else []
    case ReadFailed(u) => if u == t then [TlsRead.Rejected(why)] else []
    case _ => []
  }

  function Told(t: nat, events: seq<Event>, why: TlsRead.Reason): seq<Settlement> {
    if events == [] then [] else Tells(t, events[0], why) + Told(t, events[1..], why)
  }

  predicate Reading(t: nat, e: Event) {
    match e
    case Read(u) => true
    case Chunk(u, _) => true
    case Eof(u) => true
    case ReadFailed(u) => true
    case Begin(u, _) => u != t
    case Take(u) => u != t
    case Connected(u, _) => u != t
    case ConnectFailed(u) => u != t
    case Submit(u, _) => u != t
    case WriteDone(u) => u != t
    case WriteFailed(u) => u != t
    case Finish(u) => u != t
    case Retire(u) => u != t
    case Cancel(u) => u != t
    case CloseClient => true
    case CloseOne(_) => true
    case PeerClose(_, _) => true
  }

  /** The state of a task whose reads, since its request was written, have been told `replies`. */
  predicate Follows(codec: Codec, task: Task, reused: bool, replies: seq<Settlement>) {
    match ReadLoop(codec, INIT, replies, reused, false)
    case Blocked => task.Receiving? && task.reused == reused && AllData(replies) && task.got == Datas(replies)
    case Returned(response, keep) => task.Concluding? && task.response == response && task.keep == keep
    case Stale => task.Retiring?
    case Raised(_) => task.Idle?
  }

  lemma DatasMore(replies: seq<Settlement>, how: Settlement)
    requires AllData(replies) && how.Resolved? && how.data != []
    ensures AllData(replies + [how]) && Datas(replies + [how]) == Datas(replies) + how.data
  {
    DatasSnoc(replies, how);
  }

  lemma EofFramed(codec: Codec, p: Bytes)
    requires Feed(codec, INIT, p).Ok?
    ensures var r := FeedEof(codec, Feed(codec, INIT, p).state);
      r.Ok? ==> (r.state.response.Some? <==> r.state.phase == Done)
  {
    hide Parse, Decompress;
    FeedFramed(codec, p);
    ParseAdvances(codec, Feed(codec, INIT, p).state.(eof := true));
  }

  /** What the read loop makes of the next reply of a task that is reading. */
  lemma NextReply(codec: Codec, s: Sys, t: nat, reused: bool, replies: seq<Settlement>, how: Settlement)
    requires SysInv(codec, s) && TaskOf(s, t).Receiving? && Follows(codec, TaskOf(s, t), reused, replies)
    ensures var task := TaskOf(s, t);
      && task.reused == reused && AllData(replies) && task.got == Datas(replies)
      && Feed(codec, INIT, task.got) == Ok(task.parser) && task.parser.phase != Done
      && ReadLoop(codec, INIT, replies + [how], reused, false)
      == ReadLoop(codec, task.parser, [how], reused, task.got != [])
  {
    hide SysInv, Feed, SelfDelimited, ReadLoop;
    HolderAt(codec, s, t);
    assert [] + Datas(replies) == Datas(replies);
    InitFed(codec);
    LoopAfter(codec, [], replies, how, reused);
  }

  lemma ChunkIsTurn(codec: Codec, s: Sys, t: nat, data: Bytes, reused: bool, replies: seq<Settlement>)
    requires SysInv(codec, s) && Can(codec, s, Chunk(t, data)) && Follows(codec, TaskOf(s, t), reused, replies)
    ensures Follows(codec, TaskOf(ConnectionPool.Next(codec, s, Chunk(t, data)), t), reused,
                    replies + [TlsRead.Resolved(data)])
  {
    hide SysInv, Feed, SelfDelimited, Reusable, ReadLoop, AllData, Datas;
    var task, how := TaskOf(s, t), TlsRead.Resolved(data);
    NextReply(codec, s, t, reused, replies, how);
    LoopOne(codec, task.parser, how, reused, task.got != []);
    DatasMore(replies, how);
    FedSoFar(codec, task.got, data);
    FeedFramed(codec, task.got + data);
  }

  lemma EofIsTurn(codec: Codec, s: Sys, t: nat, reused: bool, replies: seq<Settlement>)
    requires SysInv(codec, s) && Can(codec, s, Eof(t)) && Follows(codec, TaskOf(s, t), reused, replies)
    ensures Follows(codec, TaskOf(ConnectionPool.Next(codec, s, Eof(t)), t), reused, replies + [TlsRead.Resolved([])])
  {
    hide SysInv, Feed, FeedEof, SelfDelimited, Reusable, ReadLoop, AllData, Datas;
    var task := TaskOf(s, t);
    NextReply(codec, s, t, reused, replies, TlsRead.Resolved([]));
    LoopOne(codec, task.parser, TlsRead.Resolved([]), reused, task.got != []);
    EofFramed(codec, task.got);
  }

  lemma FailureIsTurn(codec: Codec, s: Sys, t: nat, reused: bool, replies: seq<Settlement>, why: TlsRead.Reason)
    requires SysInv(codec, s) && Can(codec, s, ConnectionPool.ReadFailed(t))
    requires Follows(codec, TaskOf(s, t), reused, replies)
    ensures Follows(codec, TaskOf(ConnectionPool.Next(codec, s, ConnectionPool.ReadFailed(t)), t), reused,
                    replies + [TlsRead.Rejected(why)])
  {
    hide SysInv, Feed, SelfDelimited, Reusable, ReadLoop, AllData, Datas;
    var task := TaskOf(s, t);
    NextReply(codec, s, t, reused, replies, TlsRead.Rejected(why));
    LoopOne(codec, task.parser, TlsRead.Rejected(why), reused, task.got != []);
  }

  /** One read of a task is one turn of the read loop. */
  lemma ReadIsTurn(codec: Codec, s: Sys, e: Event, t: nat, reused: bool, replies: seq<Settlement>, why: TlsRead.Reason)
    requires SysInv(codec, s) && Can(codec, s, e) && Tells(t, e, why) != []
    requires Follows(codec, TaskOf(s, t), reused, replies)
    ensures Follows(codec, TaskOf(ConnectionPool.Next(codec, s, e), t), reused, replies + Tells(t, e, why))
  {
    hide SysInv, Can, ConnectionPool.Next, Follows;
    match e {
      case Chunk(_, data) => ChunkIsTurn(codec, s, t, data, reused, replies);
      case Eof(_) => EofIsTurn(codec, s, t, reused, replies);
      case ReadFailed(_) => FailureIsTurn(codec, s, t, reused, replies, why);
    }
  }

  /** A task whose request has been written starts on its read loop; if the write failed, it ends as the loop would. */
  lemma WriteStarts(codec: Codec, s: Sys, t: nat, why: TlsRead.Reason)
    requires TaskOf(s, t).Sending?
    ensures Follows(codec, TaskOf(ConnectionPool.Next(codec, s, WriteDone(t)), t), TaskOf(s, t).reused, [])
    ensures var task := TaskOf(ConnectionPool.Next(codec, s, ConnectionPool.WriteFailed(t)), t);
      match Exchange(codec, Script(Some(why), []), TaskOf(s, t).reused)
      case Stale => task.Retiring?
      case Raised(_) => task.Idle?
      case _ => false
  {
  }

  lemma CallbacksLeave(codec: Codec, s: Sys, e: Event, t: nat)
    requires Can(codec, s, e) && (e.Chunk? || e.Eof? || e.ReadFailed? || e.WriteFailed?) && e.task != t
    ensures TaskOf(ConnectionPool.Next(codec, s, e), t) == TaskOf(s, t)
  {
    hide Feed, FeedEof, Reusable, SelfDelimited;
  }

  lemma OthersLeave(codec: Codec, s: Sys, e: Event, t: nat, why: TlsRead.Reason)
    requires Can(codec, s, e) && Reading(t, e) && Tells(t, e, why) == []
    ensures var task, task' := TaskOf(s, t), TaskOf(ConnectionPool.Next(codec, s, e), t);
      task' == task || (task.Receiving? && task' == task.(waiting := true))
  {
    hide GiveUp, AfterParse, Feed, FeedEof, Reusable, SelfDelimited;
    if e.Chunk? || e.Eof? || e.ReadFailed? || e.WriteFailed? {
      CallbacksLeave(codec, s, e, t);
    }
  }

  lemma OthersFollow(
    codec: Codec, s: Sys, e: Event, t: nat, reused: bool, replies: seq<Settlement>, why: TlsRead.Reason)
    requires Can(codec, s, e) && Reading(t, e) && Tells(t, e, why) == []
    requires Follows(codec, TaskOf(s, t), reused, replies)
    ensures Follows(codec, TaskOf(ConnectionPool.Next(codec, s, e), t), reused, replies)
  {
    hide Can, ConnectionPool.Next, ReadLoop;
    OthersLeave(codec, s, e, t, why);
  }

  /**
   * The trajectory of every task, among any number of others: after any run in which its exchange is still going or
   * has just ended, it is where the read loop is on what its reads have been told.
   */
  lemma {:induction false} EveryTaskIsReadLoop(
    codec: Codec, s: Sys, events: seq<Event>, t: nat, reused: bool, replies: seq<Settlement>, why: TlsRead.Reason)
    requires SysInv(codec, s) && IsSysRun(codec, s, events)
    requires forall e :: e in events ==> Reading(t, e)
    requires Follows(codec, TaskOf(s, t), reused, replies)
    ensures Follows(codec, TaskOf(SysAfter(codec, s, events), t), reused, replies + Told(t, events, why))
    decreases |events|
  {
    hide SysInv, ConnectionPool.Next, Can, Follows, Reading, Tells;
    if events == [] {
      assert replies + [] == replies;
    } else {
      var e := events[0];
      SysStepKeepsInv(codec, s, e);
      if Tells(t, e, why) == [] {
        OthersFollow(codec, s, e, t, reused, replies, why);
        assert replies + Tells(t, e, why) == replies;
      } else {
        ReadIsTurn(codec, s, e, t, reused, replies, why);
      }
      var told := replies + Tells(t, e, why);
      EveryTaskIsReadLoop(codec, ConnectionPool.Next(codec, s, e), events[1..], t, reused, told, why);
      assert replies + Tells(t, e, why) + Told(t, events[1..], why) == replies + Told(t, events, why);
    }
  }

  // Every read of a TLS connection is one the pool's model has.

  /** The bytes of the peer's stream that no read has been given yet. */
  function Unread(n: Net, stream: Bytes): Bytes {
    var read := |TlsRead.Received(n.conn.settled)|;
    if read <= |stream| then stream[read..] else []
  }

  /** The network delivers the peer's stream, and its end only once all of it is delivered and the peer has closed. */
  predicate Delivers(n: Net, stream: Bytes, peerClosed: bool) {
    n.delivered <= stream && (n.conn.eof ==> peerClosed && n.delivered == stream)
  }

  /** The pool's view of a connection with this stream. */
  predicate Shows(w: Wire, n: Net, stream: Bytes) {
    w.pending == Unread(n, stream) && w.reading == TlsRead.Outstanding(n) && Delivers(n, stream, w.peerClosed)
  }

  /** The pool's event for a step of the connection that task `t` reads from; None if the task sees nothing of it. */
  function Seen(t: nat, n: Net, e: TlsRead.Event): Option<Event> {
    var log, log' := n.conn.settled, TlsRead.Apply(n, e).conn.settled;
    if e.Post? then Some(Read(t))
    else if |log'| <= |log| then None
    else
      match log'[|log|].how
      case Resolved(data) => Some(if data == [] then Eof(t) else Chunk(t, data))
      case Rejected(_) => Some(ConnectionPool.ReadFailed(t))
  }

  lemma ReadsNext(n: Net, stream: Bytes, s: TlsRead.Settled, n': Net)
    requires TlsRead.Inv(n') && n'.conn.settled == n.conn.settled + [s] && n'.delivered <= stream
    ensures match s.how
      case Resolved(data) => data <= Unread(n, stream) && Unread(n', stream) == Unread(n, stream)[|data|..]
      case Rejected(_) => Unread(n', stream) == Unread(n, stream)
  {
    var before, data := TlsRead.Received(n.conn.settled), if s.how.Resolved? then s.how.data else [];
    TlsRead.ReceivedSettle(n.conn.settled, s.id, s.how);
    assert TlsRead.Received(n'.conn.settled) == before + data;
    assert before + data <= n'.delivered <= stream;
    assert stream[|before|..][..|data|] == (before + data)[|before|..] == data;
    assert stream[|before|..][|data|..] == stream[|before + data|..];
  }

  lemma EmptyReadIsEnd(n: Net, n': Net, s: TlsRead.Settled)
    requires TlsRead.Inv(n') && n'.conn.settled == n.conn.settled + [s] && s.how == TlsRead.Resolved([])
    ensures n'.conn.eof && TlsRead.Received(n.conn.settled) == n'.delivered
  {
    assert n'.conn.settled[..|n.conn.settled|] == n.conn.settled;
    assert n'.conn.settled[|n.conn.settled|] == s;
  }

  lemma OneSettled(n: Net, e: TlsRead.Event)
    requires TlsRead.Inv(n) && TlsRead.Enabled(n, e) && !e.Post?
    ensures var log, n' := n.conn.settled, TlsRead.Apply(n, e); var log' := n'.conn.settled;
      || (log' == log && TlsRead.Outstanding(n') == TlsRead.Outstanding(n))
      || (|log'| == |log| + 1 && log' == log + [log'[|log|]] && TlsRead.Outstanding(n) && !TlsRead.Outstanding(n'))
  {
    if n.posted.Some? && e.RunRead? {
      TlsRead.SubmittedReadSettles(n);
    } else if n.conn.pending.Some? {
      TlsRead.ParkedReadSettles(n, e);
    }
  }

  lemma PostIsRead(codec: Codec, s: Sys, t: nat, n: Net, e: TlsRead.Event, stream: Bytes)
    requires SysInv(codec, s) && TaskOf(s, t).Receiving? && Shows(WireOf(s, TaskOf(s, t).conn), n, stream)
    requires TlsRead.Enabled(n, e) && e.Post?
    ensures Seen(t, n, e) == Some(Read(t)) && Can(codec, s, Read(t))
    ensures Shows(WireOf(ConnectionPool.Next(codec, s, Read(t)), TaskOf(s, t).conn), TlsRead.Apply(n, e), stream)
  {
    hide SysInv, Feed, SelfDelimited, TlsRead.Received;
    HolderAt(codec, s, t);
  }

  /** The pool's event for the end of a read. */
  function Ends(t: nat, how: Settlement): Event {
    match how
    case Resolved(data) => if data == [] then Eof(t) else Chunk(t, data)
    case Rejected(_) => ConnectionPool.ReadFailed(t)
  }

  lemma EndsCan(codec: Codec, s: Sys, t: nat, how: Settlement)
    requires SysInv(codec, s) && TaskOf(s, t).Receiving? && WireOf(s, TaskOf(s, t).conn).reading
    requires var w := WireOf(s, TaskOf(s, t).conn);
      match how
      case Resolved(data) => data <= w.pending && (data == [] ==> w.pending == [] && w.peerClosed)
      case Rejected(_) => true
    ensures Can(codec, s, Ends(t, how))
  {
    hide SysInv, Feed, SelfDelimited;
    HolderAt(codec, s, t);
  }

  lemma SeenIs(t: nat, n: Net, e: TlsRead.Event)
    requires !e.Post?
    ensures var log, log' := n.conn.settled, TlsRead.Apply(n, e).conn.settled;
      Seen(t, n, e) == if |log'| <= |log| then None else Some(Ends(t, log'[|log|].how))
  {
    hide TlsRead.Apply;
  }

  lemma ShowsAfterRead(w: Wire, n: Net, n': Net, s: TlsRead.Settled, stream: Bytes)
    requires Shows(w, n, stream) && Delivers(n', stream, w.peerClosed) && TlsRead.Inv(n')
    requires n'.conn.settled == n.conn.settled + [s] && !TlsRead.Outstanding(n')
    ensures match s.how
      case Resolved(data) =>
        && data <= w.pending && (data == [] ==> w.pending == [] && w.peerClosed)
        && Shows(w.(reading := false, pending := w.pending[|data|..]), n', stream)
        && (data == [] ==> Shows(w.(reading := false), n', stream))
      case Rejected(_) => Shows(w.(reading := false), n', stream)
  {
    hide TlsRead.Inv;
    ReadsNext(n, stream, s, n');
    if s.how == TlsRead.Resolved([]) {
      EmptyReadIsEnd(n, n', s);
    }
  }

  lemma SameUnread(w: Wire, n: Net, n': Net, stream: Bytes)
    requires Shows(w, n, stream) && Delivers(n', stream, w.peerClosed)
    requires n'.conn.settled == n.conn.settled && TlsRead.Outstanding(n') == TlsRead.Outstanding(n)
    ensures Shows(w, n', stream)
  {
  }

  lemma ShowsReading(w: Wire, n: Net, stream: Bytes)
    requires Shows(w, n, stream)
    ensures w.reading == TlsRead.Outstanding(n)
  {
  }

  /** What the end of a read does to the pool's view of its connection. */
  lemma WireAfterRead(codec: Codec, s: Sys, t: nat, how: Settlement)
    requires TaskOf(s, t).Receiving? && Can(codec, s, Ends(t, how))
    ensures var c := TaskOf(s, t).conn;
      var w, w' := WireOf(s, c), WireOf(ConnectionPool.Next(codec, s, Ends(t, how)), c);
      match how
      case Resolved(data) =>
        if data == [] then w' == w.(reading := false)
        else |data| <= |w.pending| && w' == w.(reading := false, pending := w.pending[|data|..])
      case Rejected(_) => w' == w.(reading := false)
  {
    hide Feed, FeedEof, Reusable, SelfDelimited;
  }

  /**
   * A step of the connection a task reads from is a step of the pool's model, or one the task sees nothing of: what
   * the connection tells the read is what the model lets it be told, and leaves unread what the model leaves unread.
   */
  lemma NetStepIsSysStep(codec: Codec, s: Sys, t: nat, n: Net, e: TlsRead.Event, stream: Bytes)
    requires SysInv(codec, s) && TaskOf(s, t).Receiving?
    requires var w := WireOf(s, TaskOf(s, t).conn);
      Shows(w, n, stream) && Delivers(TlsRead.Apply(n, e), stream, w.peerClosed)
    requires TlsRead.Inv(n) && TlsRead.Enabled(n, e) && !e.Close?
    ensures var c, n' := TaskOf(s, t).conn, TlsRead.Apply(n, e);
      match Seen(t, n, e)
      case None => Shows(WireOf(s, c), n', stream)
      case Some(x) =>
        && Can(codec, s, x)
        && Shows(WireOf(ConnectionPool.Next(codec, s, x), c), n', stream)
  {
    hide SysInv, TlsRead.Inv, TlsRead.Apply, TlsRead.Enabled, ConnectionPool.Next, Can, Shows, Delivers, Unread, Seen,
         Ends;
    var n', w := TlsRead.Apply(n, e), WireOf(s, TaskOf(s, t).conn);
    TlsRead.StepKeepsInv(n, e);
    if e.Post? {
      PostIsRead(codec, s, t, n, e, stream);
    } else {
      OneSettled(n, e);
      SeenIs(t, n, e);
      var log, log' := n.conn.settled, n'.conn.settled;
      if log' == log {
        SameUnread(w, n, n', stream);
      } else {
        var settled := log'[|log|];
        ShowsReading(w, n, stream);
        ShowsAfterRead(w, n, n', settled, stream);
        EndsCan(codec, s, t, settled.how);
        WireAfterRead(codec, s, t, settled.how);
      }
    }
  }

  /** A new answer on the stream, and a peer that closes before the end of it, are seen the same way on both sides. */
  lemma StreamChanges(w: Wire, n: Net, stream: Bytes, answer: Bytes, keep: nat)
    requires TlsRead.Inv(n) && Shows(w, n, stream) && !w.peerClosed
    ensures Shows(Answering(w, answer), n, stream + answer)
    ensures keep <= |w.pending| && |n.delivered| <= |stream| - (|w.pending| - keep) ==>
      Shows(Cut(w, keep), n, stream[..|stream| - (|w.pending| - keep)])
  {
    var read := |TlsRead.Received(n.conn.settled)|;
    assert read <= |n.delivered| <= |stream|;
    assert (stream + answer)[read..] == stream[read..] + answer;
    if keep <= |w.pending| && |n.delivered| <= |stream| - (|w.pending| - keep) {
      var cut := |stream| - (|w.pending| - keep);
      assert stream[..cut][read..] == stream[read..][..keep];
    }
  }
}
