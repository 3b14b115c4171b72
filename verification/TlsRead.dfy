/** The read side of a TLS connection: callbacks on one event-loop thread, at most one parked read. */
module TlsRead {
  import opened ByteStrings

  datatype Reason = TransportError(message: Bytes) | TimedOut

  /** What a read's promise was told. Resolved with no bytes means end of stream. */
  datatype Settlement = Resolved(data: Bytes) | Rejected(reason: Reason)

  datatype Settled = Settled(id: nat, how: Settlement)

  /** The lazily created read timer, and the read and deadline it is armed for. */
  datatype Timer = Absent | Idle | Armed(owner: nat, ms: nat)

  datatype Conn = Conn(
    open: bool,                // the transport still delivers to this object
    buffer: seq<Bytes>,
    pending: Option<nat>,      // the promise of the parked read
    timer: Timer,
    eof: bool,
    err: Option<Bytes>,
    settled: seq<Settled>      // every call of a resolve or reject function, in order
  )

  const FRESH := Conn(true, [], None, Absent, false, None, [])

  // Each callback as a function on the connection's state.

  function Settle(c: Conn, id: nat, how: Settlement): Conn {
    c.(settled := c.settled + [Settled(id, how)])
  }

  function Fulfill(c: Conn, id: nat): Conn {
    Settle(c.(buffer := []), id, Resolved(Concat(c.buffer)))
  }

  function Cancelled(t: Timer): Timer {
    if t.Absent? then Absent else Idle
  }

  function TakePending(c: Conn): Conn {
    c.(pending := None, timer := Cancelled(c.timer))
  }

  function ReadTask(c: Conn, id: nat, ms: nat): Conn {
    if c.buffer != [] then Fulfill(c, id)
    else if c.err.Some? then Settle(c, id, Rejected(TransportError(c.err.value)))
    else if c.eof then Settle(c, id, Resolved([]))
    else
      var parked := c.(pending := Some(id));
      if ms > 0 then parked.(timer := Armed(id, ms)) else parked
  }

  function BufferAvailable(c: Conn, buf: Option<Bytes>): Conn {
    var c' := if buf.Some? then c.(buffer := c.buffer + [buf.value]) else c;
    if c.pending.Some? then Fulfill(TakePending(c'), c.pending.value) else c'
  }

  function ReadEof(c: Conn): Conn {
    var c' := c.(eof := true);
    if c.pending.Some? then Settle(TakePending(c'), c.pending.value, Resolved([])) else c'
  }

  function ReadError(c: Conn, message: Bytes): Conn {
    var c' := c.(err := Some("read error: " + message));
    if c.pending.Some? then Settle(TakePending(c'), c.pending.value, Rejected(TransportError(c'.err.value))) else c'
  }

  /** The loop disarms a timer before it calls back. */
  function ReadTimeout(c: Conn): Conn {
    var c' := c.(timer := Idle);
    if c.pending.Some? then Settle(c'.(pending := None), c.pending.value, Rejected(TimedOut)) else c'
  }

  function CloseTask(c: Conn): Conn {
    c.(open := false)
  }

  class TlsConnection {
    var open: bool
    var buffer: seq<Bytes>
    var pendingRead: Option<nat>
    var readTimeout: Timer
    var eof: bool
    var readErr: Option<Bytes>
    var settled: seq<Settled>

    ghost function Abs(): Conn
      reads this
    {
      Conn(open, buffer, pendingRead, readTimeout, eof, readErr, settled)
    }

    /** The state in which a completed handshake leaves the object: installed as the read callback. */
    constructor ()
      ensures Abs() == FRESH
    {
      open, buffer, pendingRead, readTimeout, eof, readErr, settled := true, [], None, Absent, false, None, [];
    }

    method RunRead(id: nat, timeoutMs: nat)
      modifies this
      ensures Abs() == ReadTask(old(Abs()), id, timeoutMs)
    {
      if buffer != [] {
        FulfillRead(id);
        return;
      }
      if readErr.Some? {
        settled := settled + [Settled(id, Rejected(TransportError(readErr.value)))];
        return;
      }
      if eof {
        settled := settled + [Settled(id, Resolved([]))];
        return;
      }
      pendingRead := Some(id);
      if timeoutMs > 0 {
        readTimeout := Armed(id, timeoutMs);
      }
    }

    method OnBufferAvailable(buf: Option<Bytes>)
      modifies this
      ensures Abs() == BufferAvailable(old(Abs()), buf)
    {
      if buf.Some? {
        buffer := buffer + [buf.value];
      }
      if pendingRead.Some? {
        var id := TakePendingRead();
        FulfillRead(id);
      }
    }

    method OnReadEof()
      modifies this
      ensures Abs() == ReadEof(old(Abs()))
    {
      eof := true;
      if pendingRead.Some? {
        var id := TakePendingRead();
        settled := settled + [Settled(id, Resolved([]))];
      }
    }

    method OnReadErr(message: Bytes)
      modifies this
      ensures Abs() == ReadError(old(Abs()), message)
    {
      readErr := Some("read error: " + message);
      if pendingRead.Some? {
        var id := TakePendingRead();
        settled := settled + [Settled(id, Rejected(TransportError(readErr.value)))];
      }
    }

    method OnReadTimeout()
      requires readTimeout.Armed?
      modifies this
      ensures Abs() == ReadTimeout(old(Abs()))
    {
      readTimeout := Idle;
      if pendingRead.None? {
        return;
      }
      var id := pendingRead.value;
      pendingRead := None;
      settled := settled + [Settled(id, Rejected(TimedOut))];
    }

    method RunClose()
      modifies this
      ensures Abs() == CloseTask(old(Abs()))
    {
      open := false;
    }

    method TakePendingRead() returns (id: nat)
      requires pendingRead.Some?
      modifies this
      ensures id == old(pendingRead.value) && Abs() == TakePending(old(Abs()))
    {
      if !readTimeout.Absent? {
        readTimeout := Idle;
      }
      id := pendingRead.value;
      pendingRead := None;
    }

    method FulfillRead(id: nat)
      modifies this
      ensures Abs() == Fulfill(old(Abs()), id)
    {
      var out: Bytes := [];
      for i := 0 to |buffer|
        invariant out + Concat(buffer[i..]) == Concat(buffer)
        invariant Abs() == old(Abs())
      {
        out := out + buffer[i];
        assert buffer[i..][1..] == buffer[i + 1..];
      }
      assert out == Concat(buffer);
      buffer := [];
      settled := settled + [Settled(id, Resolved(out))];
    }
  }

  // One connection, its caller, and everything the loop and the network may do, in any order.

  datatype Event = Post(ms: nat) | RunRead | Data(chunk: Bytes) | Eof | Err(message: Bytes) | Timeout | Close

  datatype Net = Net(
    conn: Conn,
    posted: Option<nat>,       // the read that was submitted and that the loop has not run yet
    deadlines: seq<nat>,       // the deadline of each read so far; a read's promise is its index
    delivered: Bytes           // everything the transport has delivered
  )

  const QUIET := Net(FRESH, None, [], [])

  predicate Outstanding(n: Net) {
    n.posted.Some? || n.conn.pending.Some?
  }

  /** The transport delivers while it is open and has reported neither end of stream nor an error. */
  predicate Live(n: Net) {
    n.conn.open && !n.conn.eof && n.conn.err.None?
  }

  /** The caller keeps to one outstanding read; delivered buffers are not empty; only an armed timer fires. */
  predicate Enabled(n: Net, e: Event) {
    match e
    case Post(_) => !Outstanding(n)
    case RunRead => n.posted.Some?
    case Data(chunk) => Live(n) && chunk != []
    case Eof => Live(n)
    case Err(_) => Live(n)
    case Timeout => n.conn.timer.Armed?
    case Close => true
  }

  function Deadline(n: Net, id: nat): nat {
    if id < |n.deadlines| then n.deadlines[id] else 0
  }

  function Apply(n: Net, e: Event): Net {
    match e
    case Post(ms) => n.(posted := Some(|n.deadlines|), deadlines := n.deadlines + [ms])
    case RunRead =>
      if n.posted.None? then n
      else n.(conn := ReadTask(n.conn, n.posted.value, Deadline(n, n.posted.value)), posted := None)
    case Data(chunk) => n.(conn := BufferAvailable(n.conn, Some(chunk)), delivered := n.delivered + chunk)
    case Eof => n.(conn := ReadEof(n.conn))
    case Err(message) => n.(conn := ReadError(n.conn, message))
    case Timeout => n.(conn := ReadTimeout(n.conn))
    case Close => n.(conn := CloseTask(n.conn))
  }

  predicate IsRun(n: Net, events: seq<Event>)
    decreases |events|
  {
    events == [] || (Enabled(n, events[0]) && IsRun(Apply(n, events[0]), events[1..]))
  }

  function After(n: Net, events: seq<Event>): Net
    decreases |events|
  {
    if events == [] then n else After(Apply(n, events[0]), events[1..])
  }

  function Received(settled: seq<Settled>): Bytes {
    if settled == [] then []
    else
      var last := settled[|settled| - 1].how;
      Received(settled[..|settled| - 1]) + (if last.Resolved? then last.data else [])
  }

  /** What the log of settlements must look like: one per read, in order; see `Inv`. */
  predicate LogInv(n: Net) {
    && (forall i :: 0 <= i < |n.conn.settled| ==>
          var s := n.conn.settled[i];
          && s.id == i < |n.deadlines|
          && (s.how == Rejected(TimedOut) ==> n.deadlines[i] > 0)
          && (s.how == Resolved([]) ==> n.conn.eof && Received(n.conn.settled[..i]) == n.delivered))
  }

  predicate Inv(n: Net) {
    var c := n.conn;
    && LogInv(n)
    // every read before the outstanding one has been settled, exactly once
    && |n.deadlines| == |c.settled| + (if Outstanding(n) then 1 else 0)
    && (n.posted.Some? ==> n.posted.value == |c.settled| && c.pending.None?)
    && (c.pending.Some? ==> c.pending.value == |c.settled|)
    // a parked read has nothing to wait for but the network or its own deadline
    && (c.pending.Some? ==> c.buffer == [] && !c.eof && c.err.None?)
    && (c.timer.Armed? ==> c.pending == Some(c.timer.owner) && c.timer.ms == Deadline(n, c.timer.owner) > 0)
    && (c.pending.Some? && Deadline(n, c.pending.value) > 0 ==> c.timer.Armed?)
    // nothing is lost or reordered
    && (forall i :: 0 <= i < |c.buffer| ==> c.buffer[i] != [])
    && Received(c.settled) + Concat(c.buffer) == n.delivered
  }

  lemma ReceivedSettle(settled: seq<Settled>, id: nat, how: Settlement)
    ensures Received(settled + [Settled(id, how)]) == Received(settled) + (if how.Resolved? then how.data else [])
  {
    var log := settled + [Settled(id, how)];
    assert log[..|log| - 1] == settled;
  }

  lemma ConcatNonEmpty(parts: seq<Bytes>)
    requires parts != [] && forall i :: 0 <= i < |parts| ==> parts[i] != []
    ensures Concat(parts) != []
  {
  }

  lemma LogGrows(n: Net, n': Net, id: nat, how: Settlement)
    requires LogInv(n) && n'.conn.settled == n.conn.settled + [Settled(id, how)]
    requires id == |n.conn.settled| < |n'.deadlines| && n.deadlines <= n'.deadlines
    requires n.conn.eof ==> n'.conn.eof && n'.delivered == n.delivered
    requires how == Rejected(TimedOut) ==> n'.deadlines[id] > 0
    requires how == Resolved([]) ==> n'.conn.eof && Received(n.conn.settled) == n'.delivered
    ensures LogInv(n')
  {
    forall i | 0 <= i < |n'.conn.settled|
      ensures n'.conn.settled[..i] == n.conn.settled[..i]
    {
    }
    assert n.conn.settled[..|n.conn.settled|] == n.conn.settled;
  }

  lemma RunReadKeepsInv(n: Net)
    requires Inv(n) && n.posted.Some?
    ensures Inv(Apply(n, RunRead))
  {
    hide Received;
    var c, n' := n.conn, Apply(n, RunRead);
    var id := |c.settled|;
    if c.buffer != [] {
      ConcatNonEmpty(c.buffer);
      ReceivedSettle(c.settled, id, Resolved(Concat(c.buffer)));
      LogGrows(n, n', id, Resolved(Concat(c.buffer)));
    } else if c.err.Some? {
      ReceivedSettle(c.settled, id, Rejected(TransportError(c.err.value)));
      LogGrows(n, n', id, Rejected(TransportError(c.err.value)));
    } else if c.eof {
      ReceivedSettle(c.settled, id, Resolved([]));
      LogGrows(n, n', id, Resolved([]));
    }
  }

  lemma ConcatOne(chunk: Bytes)
    ensures Concat([chunk]) == chunk
  {
  }

  lemma DataToParked(n: Net, chunk: Bytes)
    requires Inv(n) && Live(n) && chunk != [] && n.conn.pending.Some?
    ensures Inv(Apply(n, Data(chunk)))
  {
    hide Received, Concat;
    var c := n.conn;
    ConcatOne(chunk);
    assert c.buffer + [chunk] == [chunk];
    assert Received(c.settled) == n.delivered by { ConcatNothing(); }
    ConcatNothing();
    ReceivedSettle(c.settled, |c.settled|, Resolved(chunk));
    LogGrows(n, Apply(n, Data(chunk)), |c.settled|, Resolved(chunk));
  }

  lemma ConcatNothing()
    ensures Concat([]) == []
  {
  }

  lemma DataToBuffer(n: Net, chunk: Bytes)
    requires Inv(n) && Live(n) && chunk != [] && n.conn.pending.None?
    ensures Inv(Apply(n, Data(chunk)))
  {
    hide Received, Concat;
    var c := n.conn;
    ConcatAppend(c.buffer, [chunk]);
    ConcatOne(chunk);
    assert Received(c.settled) + (Concat(c.buffer) + chunk) == n.delivered + chunk;
  }

  lemma DataKeepsInv(n: Net, chunk: Bytes)
    requires Inv(n) && Live(n) && chunk != []
    ensures Inv(Apply(n, Data(chunk)))
  {
    if n.conn.pending.Some? {
      DataToParked(n, chunk);
    } else {
      DataToBuffer(n, chunk);
    }
  }

  lemma EofKeepsInv(n: Net)
    requires Inv(n) && Live(n)
    ensures Inv(Apply(n, Eof))
  {
    var c := n.conn;
    if c.pending.Some? {
      ReceivedSettle(c.settled, |c.settled|, Resolved([]));
      LogGrows(n, Apply(n, Eof), |c.settled|, Resolved([]));
    }
  }

  lemma ErrKeepsInv(n: Net, message: Bytes)
    requires Inv(n) && Live(n)
    ensures Inv(Apply(n, Err(message)))
  {
    var c, n' := n.conn, Apply(n, Err(message));
    if c.pending.Some? {
      var how := Rejected(TransportError(n'.conn.err.value));
      ReceivedSettle(c.settled, |c.settled|, how);
      LogGrows(n, n', |c.settled|, how);
    }
  }

  lemma TimeoutKeepsInv(n: Net)
    requires Inv(n) && n.conn.timer.Armed?
    ensures Inv(Apply(n, Timeout))
  {
    var c := n.conn;
    ReceivedSettle(c.settled, |c.settled|, Rejected(TimedOut));
    LogGrows(n, Apply(n, Timeout), |c.settled|, Rejected(TimedOut));
  }

  /** Every enabled event, in whatever order, keeps the invariant. */
  lemma StepKeepsInv(n: Net, e: Event)
    requires Inv(n) && Enabled(n, e)
    ensures Inv(Apply(n, e))
  {
    match e {
      case Post(_) =>
      case RunRead => RunReadKeepsInv(n);
      case Data(chunk) => DataKeepsInv(n, chunk);
      case Eof => EofKeepsInv(n);
      case Err(message) => ErrKeepsInv(n, message);
      case Timeout => TimeoutKeepsInv(n);
      case Close =>
    }
  }

  /** So it holds throughout every run, of any length and any interleaving. */
  lemma {:induction false} RunsKeepInv(n: Net, events: seq<Event>)
    requires Inv(n) && IsRun(n, events)
    ensures Inv(After(n, events))
    decreases |events|
  {
    if events == [] {
    } else {
      StepKeepsInv(n, events[0]);
      RunsKeepInv(Apply(n, events[0]), events[1..]);
    }
  }

  lemma ReachableInv(events: seq<Event>)
    requires IsRun(QUIET, events)
    ensures Inv(After(QUIET, events))
  {
    RunsKeepInv(QUIET, events);
  }

  // What the state owes to the events alone.

  function DataSent(events: seq<Event>): Bytes {
    if events == [] then []
    else
      var last := events[|events| - 1];
      DataSent(events[..|events| - 1]) + (if last.Data? then last.chunk else [])
  }

  function DeadlinesAsked(events: seq<Event>): seq<nat> {
    if events == [] then []
    else
      var last := events[|events| - 1];
      DeadlinesAsked(events[..|events| - 1]) + (if last.Post? then [last.ms] else [])
  }

  predicate Broke(events: seq<Event>) {
    exists i :: 0 <= i < |events| && events[i].Err?
  }

  /** The network has spoken its last word: the end of the stream or an error. */
  predicate Remembers(n: Net, past: seq<Event>) {
    && n.delivered == DataSent(past) && n.deadlines == DeadlinesAsked(past)
    && (n.conn.eof <==> Eof in past) && (n.conn.open <==> Close !in past)
    && (n.conn.err.Some? <==> Broke(past)) && !(n.conn.eof && n.conn.err.Some?)
    && (forall i :: 0 <= i < |past| && past[i].Err? ==> n.conn.err == Some("read error: " + past[i].message))
  }

  lemma BrokeStep(past: seq<Event>, e: Event)
    ensures Broke(past + [e]) <==> Broke(past) || e.Err?
  {
    var now := past + [e];
    assert now[|past|] == e;
    assert forall i :: 0 <= i < |past| ==> now[i] == past[i];
    if Broke(past) {
      var i :| 0 <= i < |past| && past[i].Err?;
      assert now[i].Err?;
    }
  }

  lemma StepRecords(n: Net, e: Event)
    requires Enabled(n, e)
    ensures var n' := Apply(n, e);
      && n'.delivered == n.delivered + (if e.Data? then e.chunk else [])
      && n'.deadlines == n.deadlines + (if e.Post? then [e.ms] else [])
      && (n'.conn.eof <==> n.conn.eof || e == Eof) && (n'.conn.open <==> n.conn.open && e != Close)
      && n'.conn.err == (if e.Err? then Some("read error: " + e.message) else n.conn.err)
    ensures e.Eof? || e.Err? ==> !n.conn.eof && n.conn.err.None?
  {
    hide Concat;
  }

  lemma RememberStep(n: Net, past: seq<Event>, e: Event)
    requires Remembers(n, past) && Enabled(n, e)
    ensures Remembers(Apply(n, e), past + [e])
  {
    hide Apply, Enabled, Broke;
    StepRecords(n, e);
    var now := past + [e];
    assert now[..|past|] == past && now[|past|] == e;
    BrokeStep(past, e);
    assert Eof in now <==> Eof in past || e == Eof;
    assert Close in now <==> Close in past || e == Close;
    if !e.Err? {
      assert forall i :: 0 <= i < |now| && now[i].Err? ==> i < |past| && now[i] == past[i];
    } else {
      assert Broke(past) ==> n.conn.err.Some?;
    }
  }

  lemma {:induction false} RunRemembers(n: Net, past: seq<Event>, events: seq<Event>)
    requires Remembers(n, past) && IsRun(n, events)
    ensures Remembers(After(n, events), past + events)
    decreases |events|
  {
    hide Remembers, Apply, Enabled;
    if events == [] {
      assert past + events == past;
    } else {
      RememberStep(n, past, events[0]);
      RunRemembers(Apply(n, events[0]), past + [events[0]], events[1..]);
      assert past + [events[0]] + events[1..] == past + events;
    }
  }

  lemma QuietRemembers(events: seq<Event>)
    requires IsRun(QUIET, events)
    ensures Remembers(After(QUIET, events), events)
  {
    RunRemembers(QUIET, [], events);
    assert [] + events == events;
  }

  /** Once the stream has ended, or failed, no read waits: whether or not one did when that happened. */
  lemma EndLeavesNoneParked(events: seq<Event>)
    requires IsRun(QUIET, events) && (Eof in events || Broke(events))
    ensures After(QUIET, events).conn.pending == None
  {
    ReachableInv(events);
    QuietRemembers(events);
  }

  /**
   * What a read is told when the loop runs it, from the events before it alone: all bytes sent and not yet read; if
   * there are none, the error that has come, or else the end of the stream that has come; and if neither has, it
   * waits, with a timer of its own if it was made with a deadline.
   */
  lemma ReadToldByEvents(events: seq<Event>)
    requires IsRun(QUIET, events) && After(QUIET, events).posted.Some?
    ensures var n := After(QUIET, events); var c, c', id := n.conn, Apply(n, RunRead).conn, |n.conn.settled|;
      && n.posted == Some(id) && |DeadlinesAsked(events)| == id + 1
      && Received(c.settled) <= DataSent(events)
      && var unread := DataSent(events)[|Received(c.settled)|..];
         if unread != [] then c'.settled == c.settled + [Settled(id, Resolved(unread))]
         else if Broke(events) then
           forall i :: 0 <= i < |events| && events[i].Err? ==>
             c'.settled == c.settled + [Settled(id, Rejected(TransportError("read error: " + events[i].message)))]
         else if Eof in events then c'.settled == c.settled + [Settled(id, Resolved([]))]
         else && c'.settled == c.settled && c'.pending == Some(id)
              && (DeadlinesAsked(events)[id] > 0 ==> c'.timer == Armed(id, DeadlinesAsked(events)[id]))
              && (DeadlinesAsked(events)[id] == 0 ==> !c'.timer.Armed?)
  {
    hide Received, Concat, DataSent, DeadlinesAsked, Broke, LogInv;
    ReachableInv(events);
    QuietRemembers(events);
    var n := After(QUIET, events);
    var read, left := Received(n.conn.settled), Concat(n.conn.buffer);
    assert (read + left)[|read|..] == left;
    if n.conn.buffer == [] {
      ConcatNothing();
    } else {
      ConcatNonEmpty(n.conn.buffer);
    }
  }

  /** What a parked read is told by the event that ends its wait. */
  function Verdict(n: Net, e: Event): Option<Settlement> {
    match e
    case Data(chunk) => Some(Resolved(chunk))
    case Eof => Some(Resolved([]))
    case Err(message) => Some(Rejected(TransportError("read error: " + message)))
    case Timeout => Some(Rejected(TimedOut))
    case _ => None
  }

  /** A parked read is settled by the very next data, end of stream, error or deadline, and only by those. */
  lemma ParkedReadSettles(n: Net, e: Event)
    requires Inv(n) && Enabled(n, e) && n.conn.pending.Some?
    ensures var c, c' := n.conn, Apply(n, e).conn;
      match Verdict(n, e)
      case Some(how) =>
        && c'.pending == None && !c'.timer.Armed?
        && c'.settled == c.settled + [Settled(c.pending.value, how)]
      case None => c'.pending == c.pending && c'.settled == c.settled
  {
    match e {
      case Data(chunk) => assert n.conn.buffer + [chunk] == [chunk] && Concat([chunk]) == chunk;
      case _ =>
    }
  }

  /** A submitted read is settled the moment the loop runs it, unless there is nothing to tell it yet. */
  lemma SubmittedReadSettles(n: Net)
    requires Inv(n) && n.posted.Some?
    ensures var c, c' := n.conn, Apply(n, RunRead).conn; var id := n.posted.value;
      if c.buffer != [] then
        c'.settled == c.settled + [Settled(id, Resolved(Concat(c.buffer)))] && Concat(c.buffer) != []
      else if c.err.Some? then c'.settled == c.settled + [Settled(id, Rejected(TransportError(c.err.value)))]
      else if c.eof then c'.settled == c.settled + [Settled(id, Resolved([]))]
      else c'.settled == c.settled && c'.pending == Some(id)
  {
    if n.conn.buffer != [] {
      ConcatNonEmpty(n.conn.buffer);
    }
  }

  /** In every run, a read is told that it timed out exactly when the deadline that fires is its own. */
  lemma OwnDeadline(events: seq<Event>, e: Event)
    requires IsRun(QUIET, events) && Enabled(After(QUIET, events), e)
    ensures var n := After(QUIET, events); var log, log' := n.conn.settled, Apply(n, e).conn.settled;
      && (forall i :: |log| <= i < |log'| && log'[i].how == Rejected(TimedOut) ==>
            && e == Timeout && n.conn.pending == Some(log'[i].id)
            && n.conn.timer == Armed(log'[i].id, Deadline(n, log'[i].id)) && Deadline(n, log'[i].id) > 0)
      && (e == Timeout ==>
            && n.conn.pending.Some?
            && n.conn.timer == Armed(n.conn.pending.value, Deadline(n, n.conn.pending.value))
            && log' == log + [Settled(n.conn.pending.value, Rejected(TimedOut))])
  {
    ReachableInv(events);
    var n := After(QUIET, events);
    if n.posted.Some? && e.RunRead? {
      SubmittedReadSettles(n);
    } else if n.conn.pending.Some? {
      ParkedReadSettles(n, e);
    }
  }

  /** Each read is settled at most once, in the order the reads were made, and only an outstanding one not yet. */
  lemma SettledOnce(events: seq<Event>, i: nat, j: nat)
    requires IsRun(QUIET, events)
    requires i < |After(QUIET, events).conn.settled| && j < |After(QUIET, events).conn.settled|
    ensures var n := After(QUIET, events); var log := n.conn.settled;
      && (log[i].id == log[j].id ==> i == j)
      && (log[i].how == Rejected(TimedOut) ==> Deadline(n, log[i].id) > 0)
      && |n.deadlines| - |log| == if Outstanding(n) then 1 else 0
  {
    ReachableInv(events);
  }

  // Closing locally.

  lemma {:induction false} ClosedStaysParked(n: Net, events: seq<Event>)
    requires Inv(n) && IsRun(n, events)
    requires !n.conn.open && n.conn.pending.Some? && Deadline(n, n.conn.pending.value) == 0
    ensures After(n, events).conn.pending == n.conn.pending && After(n, events).conn.settled == n.conn.settled
    decreases |events|
  {
    if events == [] {
    } else {
      assert events[0].Close?;
      StepKeepsInv(n, events[0]);
      ClosedStaysParked(Apply(n, events[0]), events[1..]);
    }
  }

  ghost predicate CanSettle(n: Net, id: nat) {
    exists events :: IsRun(n, events) && |After(n, events).conn.settled| > id
  }

  /** After a local close, a parked read can still be settled if and only if it has a deadline. */
  lemma ClosedReadNeedsDeadline(n: Net)
    requires Inv(n) && !n.conn.open && n.conn.pending.Some?
    ensures CanSettle(n, n.conn.pending.value) <==> Deadline(n, n.conn.pending.value) > 0
  {
    if Deadline(n, n.conn.pending.value) > 0 {
      assert Enabled(n, Timeout);
      var events := [Timeout];
      assert events[1..] == [];
      assert IsRun(n, events) && After(n, events) == Apply(n, Timeout);
    } else {
      forall events | IsRun(n, events) ensures After(n, events).conn.settled == n.conn.settled {
        ClosedStaysParked(n, events);
      }
    }
  }

  /** Why the transport must not deliver empty buffers: to a parked read one looks like the end of the stream. */
  lemma EmptyBufferLooksLikeEnd(n: Net, buf: Option<Bytes>)
    requires Inv(n) && n.conn.pending.Some? && (buf == None || buf == Some([]))
    ensures var c, c' := n.conn, BufferAvailable(n.conn, buf);
      c'.settled == c.settled + [Settled(c.pending.value, Resolved([]))] && c'.pending == None && !c'.eof
  {
    assert n.conn.buffer + [[]] == [[]];
    ConcatOne([]);
    ConcatNothing();
  }

  // Breaking the limit of one outstanding read, which is the caller's to keep.

  /** The callbacks of one connection, without any rule on when a read may be made. */
  datatype Callback =
    | Task(id: nat, ms: nat)
    | Delivery(buf: Option<Bytes>)
    | EndOfStream
    | Failure(message: Bytes)
    | Expiry
    | Closing

  function Call(c: Conn, call: Callback): Conn {
    match call
    case Task(id, ms) => ReadTask(c, id, ms)
    case Delivery(buf) => BufferAvailable(c, buf)
    case EndOfStream => ReadEof(c)
    case Failure(message) => ReadError(c, message)
    case Expiry => ReadTimeout(c)
    case Closing => CloseTask(c)
  }

  function Calls(c: Conn, calls: seq<Callback>): Conn
    decreases |calls|
  {
    if calls == [] then c else Calls(Call(c, calls[0]), calls[1..])
  }

  /** From `c` to `c'` the read `id` has not been settled. */
  predicate Unsettled(c: Conn, c': Conn, id: nat) {
    c.settled <= c'.settled && forall i :: |c.settled| <= i < |c'.settled| ==> c'.settled[i].id != id
  }

  lemma ForgottenOnce(c: Conn, call: Callback, id: nat)
    requires c.pending != Some(id) && forall ms :: call != Task(id, ms)
    ensures Call(c, call).pending != Some(id) && Unsettled(c, Call(c, call), id)
  {
    hide Concat;
    if call.Task? {
      assert call != Task(id, call.ms);
    }
  }

  lemma {:induction false} ForgottenStaysUnsettled(c: Conn, calls: seq<Callback>, id: nat)
    requires c.pending != Some(id) && forall k, ms :: 0 <= k < |calls| ==> calls[k] != Task(id, ms)
    ensures Unsettled(c, Calls(c, calls), id)
    decreases |calls|
  {
    hide Call;
    if calls == [] {
    } else {
      var c' := Call(c, calls[0]);
      ForgottenOnce(c, calls[0], id);
      forall k, ms | 0 <= k < |calls[1..]| ensures calls[1..][k] != Task(id, ms) {
        assert calls[1..][k] == calls[k + 1];
      }
      ForgottenStaysUnsettled(c', calls[1..], id);
    }
  }

  /**
   * What breaking it costs: if two reads are run with nothing to deliver, the second takes the place of the first,
   * which nothing that happens later ever settles; and if only the first had a deadline, that ends the second.
   */
  lemma OverlappingReadIsLost(c: Conn, first: nat, ms: nat, second: nat, ms': nat, calls: seq<Callback>)
    requires c.buffer == [] && c.err.None? && !c.eof && !c.timer.Armed? && first != second
    requires forall k, t :: 0 <= k < |calls| ==> calls[k] != Task(first, t)
    ensures var both := Calls(c, [Task(first, ms), Task(second, ms')]);
      && both.pending == Some(second) && both.settled == c.settled
      && Unsettled(c, Calls(both, calls), first)
      && (ms > 0 && ms' == 0 ==>
            && both.timer == Armed(first, ms)
            && ReadTimeout(both).settled == c.settled + [Settled(second, Rejected(TimedOut))])
  {
    var both := Calls(c, [Task(first, ms), Task(second, ms')]);
    assert [Task(first, ms), Task(second, ms')][1..] == [Task(second, ms')];
    assert [Task(second, ms')][1..] == [];
    assert Calls(ReadTask(c, first, ms), [Task(second, ms')]) == ReadTask(ReadTask(c, first, ms), second, ms');
    assert both == ReadTask(ReadTask(c, first, ms), second, ms');
    ForgottenStaysUnsettled(both, calls, first);
  }

  /**
   * What a caller sees of the connection is a byte pipe: if the peer's whole stream is `stream`, each read that
   * gets data gets the next bytes of it, and one that gets none has seen all of it.
   */
  lemma ReadsRefinePipe(n: Net, stream: Bytes, i: nat)
    requires Inv(n) && n.delivered <= stream && (n.conn.eof ==> n.delivered == stream)
    requires i < |n.conn.settled| && n.conn.settled[i].how.Resolved?
    ensures var data, before := n.conn.settled[i].how.data, Received(n.conn.settled[..i]);
      && before <= stream
      && (data != [] ==> data <= stream[|before|..])
      && (data == [] ==> before == stream)
  {
    ReceivedPrefix(n.conn.settled, i + 1);
    var log := n.conn.settled[..i + 1];
    assert log[..i] == n.conn.settled[..i];
    var before, data := Received(n.conn.settled[..i]), n.conn.settled[i].how.data;
    assert Received(log) == before + data;
    PrefixTail(before, data, stream);
  }

  lemma PrefixTail(before: Bytes, data: Bytes, stream: Bytes)
    requires before + data <= stream
    ensures before <= stream && data <= stream[|before|..]
  {
    assert stream[|before|..][..|data|] == (before + data)[|before|..];
  }

  lemma {:induction false} ReceivedPrefix(log: seq<Settled>, k: nat)
    requires k <= |log|
    ensures Received(log[..k]) <= Received(log)
    decreases |log|
  {
    if k < |log| {
      assert log[..|log| - 1][..k] == log[..k];
      ReceivedPrefix(log[..|log| - 1], k);
    } else {
      assert log[..k] == log;
    }
  }
}
