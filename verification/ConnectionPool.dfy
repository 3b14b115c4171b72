/** The connection pool under any interleaving of requests, closes, cancellations and the peer. */
module ConnectionPool {
  import opened ByteStrings
  import opened ParserSpec
  import opened Segmentation
  import opened Framing
  import opened Exchanges

  datatype Key = Key(host: string, port: int)

  type Pool = map<Key, seq<nat>>

  /** The most recently pooled connection for the key, if there is one. */
  function TakeFrom(pool: Pool, key: Key): (Pool, Option<nat>) {
    if key in pool && pool[key] != [] then
      var n := |pool[key]| - 1;
      (pool[key := pool[key][..n]], Some(pool[key][n]))
    else (pool, None)
  }

  /** The connection goes last in its key's list, which is created on first use. */
  function GiveTo(pool: Pool, key: Key, conn: nat): Pool {
    pool[key := (if key in pool then pool[key] else []) + [conn]]
  }

  function Pooled(pool: Pool): set<nat> {
    set key, i | key in pool && 0 <= i < |pool[key]| :: pool[key][i]
  }

  class Client {
    var pool: Pool

    constructor ()
      ensures pool == map[]
    {
      pool := map[];
    }

    method Take(key: Key) returns (conn: Option<nat>)
      modifies this
      ensures (pool, conn) == TakeFrom(old(pool), key)
    {
      if key !in pool {
        return None;
      }
      var conns := pool[key];
      if conns == [] {
        return None;
      }
      pool := pool[key := conns[..|conns| - 1]];
      return Some(conns[|conns| - 1]);
    }

    method Give(key: Key, conn: nat)
      modifies this
      ensures pool == GiveTo(old(pool), key, conn)
    {
      var conns := if key in pool then pool[key] else [];
      pool := pool[key := conns + [conn]];
    }

    /** The part of `close` under the lock; the connections returned are then closed one by one. */
    method Drain() returns (pooled: set<nat>)
      modifies this
      ensures pool == map[] && pooled == Pooled(old(pool))
    {
      pooled := Pooled(pool);
      pool := map[];
    }
  }

  // The whole system: the client's tasks (threads or asyncio tasks), its connections, and the peers.

  /**
   * A connection: what the peer still has to deliver on it, all it delivers in answer to the latest request, and
   * which operations are outstanding.
   */
  datatype Wire = Wire(
    pending: Bytes, delivers: Bytes, peerClosed: bool, closed: bool, reading: bool, writing: bool)

  datatype Task =
    | Idle
    | Picking(key: Key)
    | Connecting(key: Key)
    | Holding(key: Key, conn: nat, reused: bool)
    | Sending(key: Key, conn: nat, reused: bool, own: Bytes)
    | Receiving(key: Key, conn: nat, reused: bool, own: Bytes, got: Bytes, parser: State, waiting: bool)
    | Retiring(key: Key, conn: nat)
    | Concluding(key: Key, conn: nat, own: Bytes, got: Bytes, ended: bool, response: Response, keep: bool)

  /** Where a connection is. A map holds one place per connection: that is the ownership claim. */
  datatype Place = Slot(key: Key, index: nat) | Held(task: nat) | Closing | Gone

  /** A response handed to a task: the peer's answer to its own request, and the bytes it was parsed from. */
  datatype Exchanged = Exchanged(
    task: nat, conn: nat, own: Bytes, got: Bytes, ended: bool, response: Response,
    delivers: Bytes,           // what the peer sent of its answer before it closed, if it did
    peerClosed: bool
  )

  datatype Sys = Sys(
    pool: Pool, conns: map<nat, Wire>, place: map<nat, Place>, tasks: map<nat, Task>, closing: set<nat>,
    log: seq<Exchanged>
  )

  const EMPTY := Sys(map[], map[], map[], map[], {}, [])

  function TaskOf(s: Sys, t: nat): Task {
    if t in s.tasks then s.tasks[t] else Idle
  }

  function ConnOf(task: Task): Option<nat> {
    match task
    case Holding(_, c, _) => Some(c)
    case Sending(_, c, _, _) => Some(c)
    case Receiving(_, c, _, _, _, _, _) => Some(c)
    case Retiring(_, c) => Some(c)
    case Concluding(_, c, _, _, _, _, _) => Some(c)
    case _ => None
  }

  datatype Event =
    | Begin(task: nat, key: Key)
    | Take(task: nat)
    | Connected(task: nat, conn: nat)
    | ConnectFailed(task: nat)
    | Submit(task: nat, answer: Bytes)     // the write is submitted; `answer` is what the peer will say to it
    | WriteDone(task: nat)
    | WriteFailed(task: nat)
    | Read(task: nat)
    | Chunk(task: nat, data: Bytes)
    | Eof(task: nat)
    | ReadFailed(task: nat)                // a transport error or the read's deadline
    | Finish(task: nat)
    | Retire(task: nat)
    | Cancel(task: nat)                    // asyncio cancellation, at any point
    | CloseClient
    | CloseOne(conn: nat)
    | PeerClose(conn: nat, keep: nat)

  function WireOf(s: Sys, c: nat): Wire {
    if c in s.conns then s.conns[c] else Wire([], [], true, true, false, false)
  }

  predicate Can(codec: Codec, s: Sys, e: Event) {
    match e
    case Begin(t, _) => TaskOf(s, t).Idle?
    case Take(t) => TaskOf(s, t).Picking?
    case Connected(t, c) => TaskOf(s, t).Connecting? && c !in s.conns && c !in s.place
    case ConnectFailed(t) => TaskOf(s, t).Connecting?
    case Submit(t, answer) => TaskOf(s, t).Holding? && SelfDelimited(codec, answer)
    case WriteDone(t) => TaskOf(s, t).Sending?
    case WriteFailed(t) => TaskOf(s, t).Sending?
    case Read(t) => TaskOf(s, t).Receiving? && !TaskOf(s, t).waiting
    case Chunk(t, data) =>
      var task := TaskOf(s, t);
      task.Receiving? && task.waiting && data != [] && data <= WireOf(s, task.conn).pending
    case Eof(t) =>
      var task := TaskOf(s, t);
      task.Receiving? && task.waiting && WireOf(s, task.conn).pending == [] && WireOf(s, task.conn).peerClosed
    case ReadFailed(t) => TaskOf(s, t).Receiving? && TaskOf(s, t).waiting
    case Finish(t) => TaskOf(s, t).Concluding?
    case Retire(t) => TaskOf(s, t).Retiring?
    case Cancel(t) => !TaskOf(s, t).Idle?
    case CloseClient => true
    case CloseOne(c) => c in s.closing
    case PeerClose(c, keep) => c in s.conns && !s.conns[c].peerClosed && keep <= |s.conns[c].pending|
  }

  /** A task goes on, keeping its connection. */
  function Go(s: Sys, t: nat, task: Task, c: nat, w: Wire): Sys {
    s.(tasks := s.tasks[t := task], conns := s.conns[c := w])
  }

  /** A task gives up its connection, which nobody holds from then on. */
  function Drop(s: Sys, t: nat, task: Task, c: nat, w: Wire): Sys {
    s.(tasks := s.tasks[t := task], conns := s.conns[c := w], place := s.place[c := Gone])
  }

  function Stop(s: Sys, t: nat): Sys {
    s.(tasks := s.tasks[t := Idle])
  }

  /** A stale pooled connection is retired and replaced; anything else is raised to the caller. */
  function GiveUp(s: Sys, t: nat, key: Key, c: nat, stale: bool, w: Wire): Sys {
    if stale then Go(s, t, Retiring(key, c), c, w) else Drop(s, t, Idle, c, w)
  }

  function Give(s: Sys, t: nat, key: Key, c: nat): Sys {
    var pool := GiveTo(s.pool, key, c);
    s.(pool := pool, tasks := s.tasks[t := Idle], place := s.place[c := Slot(key, |pool[key]| - 1)])
  }

  /** The peer takes the request and answers it, unless it has closed the connection. */
  function Answering(w: Wire, answer: Bytes): Wire {
    if w.peerClosed then w.(writing := true, delivers := [])
    else w.(writing := true, pending := w.pending + answer, delivers := answer)
  }

  /** The peer closes: of what it still had to deliver, `keep` bytes arrive. */
  function Cut(w: Wire, keep: nat): Wire
    requires keep <= |w.pending|
  {
    var lost := |w.pending| - keep;
    w.(pending := w.pending[..keep], peerClosed := true,
       delivers := if lost <= |w.delivers| then w.delivers[..|w.delivers| - lost] else [])
  }

  function AfterParse(s: Sys, t: nat, task: Task, got: Bytes, ended: bool, p: State, w: Wire): Sys
    requires task.Receiving?
  {
    match p.response
    case Some(response) =>
      Go(s, t, Concluding(task.key, task.conn, task.own, got, ended, response, Reusable(p.untilClose, response)),
         task.conn, w)
    case None =>
      if ended then GiveUp(s, t, task.key, task.conn, task.reused, w)
      else Go(s, t, task.(got := got, parser := p, waiting := false), task.conn, w)
  }

  function Next(codec: Codec, s: Sys, e: Event): Sys
    requires Can(codec, s, e)
  {
    match e
    case Begin(t, key) => s.(tasks := s.tasks[t := Picking(key)])
    case Take(t) =>
      var key := TaskOf(s, t).key;
      var (pool, taken) := TakeFrom(s.pool, key);
      (match taken
       case None => s.(tasks := s.tasks[t := Connecting(key)])
       case Some(c) =>
         s.(pool := pool, tasks := s.tasks[t := Holding(key, c, true)], place := s.place[c := Held(t)]))
    case Connected(t, c) =>
      s.(tasks := s.tasks[t := Holding(TaskOf(s, t).key, c, false)],
         conns := s.conns[c := Wire([], [], false, false, false, false)], place := s.place[c := Held(t)])
    case ConnectFailed(t) => Stop(s, t)
    case Submit(t, answer) =>
      var task := TaskOf(s, t);
      var w := WireOf(s, task.conn);
      Go(s, t, Sending(task.key, task.conn, task.reused, answer), task.conn, Answering(w, answer))
    case WriteDone(t) =>
      var task := TaskOf(s, t);
      Go(s, t, Receiving(task.key, task.conn, task.reused, task.own, [], INIT, false), task.conn,
         WireOf(s, task.conn).(writing := false))
    case WriteFailed(t) =>
      var task := TaskOf(s, t);
      GiveUp(s, t, task.key, task.conn, task.reused, WireOf(s, task.conn).(writing := false))
    case Read(t) =>
      var task := TaskOf(s, t);
      Go(s, t, task.(waiting := true), task.conn, WireOf(s, task.conn).(reading := true))
    case Chunk(t, data) =>
      var task := TaskOf(s, t);
      var w := WireOf(s, task.conn);
      var w' := w.(reading := false, pending := w.pending[|data|..]);
      (match Feed(codec, task.parser, data)
       case Failed(_) => Drop(s, t, Idle, task.conn, w')
       case Ok(p) => AfterParse(s, t, task, task.got + data, false, p, w'))
    case Eof(t) =>
      var task := TaskOf(s, t);
      var w' := WireOf(s, task.conn).(reading := false);
      if task.reused && task.got == [] then GiveUp(s, t, task.key, task.conn, true, w')
      else
        (match FeedEof(codec, task.parser)
         case Failed(_) => Drop(s, t, Idle, task.conn, w')
         case Ok(p) => AfterParse(s, t, task, task.got, true, p, w'))
    case ReadFailed(t) =>
      var task := TaskOf(s, t);
      GiveUp(s, t, task.key, task.conn, task.reused && task.got == [], WireOf(s, task.conn).(reading := false))
    case Finish(t) =>
      var task := TaskOf(s, t);
      var w := WireOf(s, task.conn);
      var log := s.log + [Exchanged(t, task.conn, task.own, task.got, task.ended, task.response, w.delivers,
                                    w.peerClosed)];
      var s' := s.(log := log);
      if task.keep then Give(s', t, task.key, task.conn)
      else Drop(s', t, Idle, task.conn, WireOf(s', task.conn).(closed := true))
    case Retire(t) =>
      var task := TaskOf(s, t);
      Drop(s, t, Connecting(task.key), task.conn, WireOf(s, task.conn).(closed := true))
    case Cancel(t) =>
      (match ConnOf(TaskOf(s, t))
       case None => Stop(s, t)
       case Some(c) => Drop(s, t, Idle, c, WireOf(s, c)))
    case CloseClient =>
      s.(pool := map[], closing := s.closing + Pooled(s.pool),
         place := map c | c in s.place :: if c in Pooled(s.pool) then Closing else s.place[c])
    case CloseOne(c) =>
      s.(closing := s.closing - {c}, conns := s.conns[c := WireOf(s, c).(closed := true)],
         place := s.place[c := Gone])
    case PeerClose(c, keep) =>
      s.(conns := s.conns[c := Cut(s.conns[c], keep)])
  }

  // The invariant.

  predicate AtEase(w: Wire) {
    !w.closed && !w.reading && !w.writing
  }

  /** The unread bytes on a connection are the rest of the answer being read, cut short only by the peer's close. */
  predicate Owed(w: Wire, got: Bytes, own: Bytes) {
    got + w.pending == w.delivers <= own && (!w.peerClosed ==> w.delivers == own)
  }

  /** The response is the parse of the peer's answer to this request: all of it, or what came before the peer closed. */
  predicate Matched(codec: Codec, own: Bytes, got: Bytes, ended: bool, response: Response) {
    && SelfDelimited(codec, own) && got <= own
    && if ended then
         var r := ThenEof(codec, Feed(codec, INIT, got));
         r.Ok? && r.state.response == Some(response)
       else got == own && Feed(codec, INIT, own).state.response == Some(response)
  }

  predicate TaskOk(codec: Codec, task: Task, w: Wire) {
    match task
    case Holding(_, _, _) => AtEase(w) && w.pending == []
    case Sending(_, _, _, own) =>
      !w.closed && !w.reading && w.writing && SelfDelimited(codec, own) && Owed(w, [], own)
    case Receiving(_, _, _, own, got, parser, waiting) =>
      && !w.closed && !w.writing && w.reading == waiting
      && SelfDelimited(codec, own) && Owed(w, got, own)
      && Feed(codec, INIT, got) == Ok(parser) && parser.phase != Done
    case Retiring(_, _) => AtEase(w)
    case Concluding(_, _, own, got, ended, response, _) =>
      && AtEase(w) && w.pending == [] && Owed(w, got, own) && (ended ==> w.peerClosed)
      && Matched(codec, own, got, ended, response)
    case _ => true
  }

  predicate IsAt(s: Sys, c: nat, p: Place) {
    c in s.conns && c in s.place && s.place[c] == p
  }

  predicate SlotOk(s: Sys, key: Key, i: nat)
    requires key in s.pool && i < |s.pool[key]|
  {
    var c := s.pool[key][i];
    IsAt(s, c, Slot(key, i)) && AtEase(s.conns[c]) && s.conns[c].pending == []
  }

  predicate HolderOk(codec: Codec, s: Sys, t: nat) {
    var task := TaskOf(s, t);
    match ConnOf(task)
    case None => true
    case Some(c) => IsAt(s, c, Held(t)) && TaskOk(codec, task, s.conns[c])
  }

  predicate ClosingOk(s: Sys, c: nat) {
    IsAt(s, c, Closing) && AtEase(s.conns[c])
  }

  predicate LogOk(codec: Codec, x: Exchanged) {
    && Matched(codec, x.own, x.got, x.ended, x.response)
    && x.got == x.delivers && (x.ended || x.delivers != x.own ==> x.peerClosed)
  }

  ghost predicate SysInv(codec: Codec, s: Sys) {
    && (forall key, i: nat :: key in s.pool && i < |s.pool[key]| ==> SlotOk(s, key, i))
    && (forall t: nat :: HolderOk(codec, s, t))
    && (forall c: nat :: c in s.closing ==> ClosingOk(s, c))
    && (forall i: nat :: i < |s.log| ==> LogOk(codec, s.log[i]))
  }

  lemma GoKeeps(codec: Codec, s: Sys, t: nat, task: Task, c: nat, w: Wire)
    requires SysInv(codec, s) && ConnOf(TaskOf(s, t)) == Some(c)
    requires ConnOf(task) == Some(c) && TaskOk(codec, task, w)
    ensures SysInv(codec, Go(s, t, task, c, w))
  {
    hide TaskOk, LogOk;
    var s' := Go(s, t, task, c, w);
    assert HolderOk(codec, s, t);
    forall key, i: nat | key in s'.pool && i < |s'.pool[key]| ensures SlotOk(s', key, i) {
      assert SlotOk(s, key, i);
    }
    forall u: nat ensures HolderOk(codec, s', u) {
      assert HolderOk(codec, s, u);
    }
    forall d: nat | d in s'.closing ensures ClosingOk(s', d) {
      assert ClosingOk(s, d);
    }
  }

  lemma DropKeeps(codec: Codec, s: Sys, t: nat, task: Task, c: nat, w: Wire)
    requires SysInv(codec, s) && ConnOf(TaskOf(s, t)) == Some(c) && ConnOf(task) == None
    ensures SysInv(codec, Drop(s, t, task, c, w))
  {
    hide TaskOk, LogOk;
    var s' := Drop(s, t, task, c, w);
    assert HolderOk(codec, s, t);
    forall key, i: nat | key in s'.pool && i < |s'.pool[key]| ensures SlotOk(s', key, i) {
      assert SlotOk(s, key, i);
    }
    forall u: nat ensures HolderOk(codec, s', u) {
      assert HolderOk(codec, s, u);
    }
    forall d: nat | d in s'.closing ensures ClosingOk(s', d) {
      assert ClosingOk(s, d);
    }
  }

  /** A task without a connection moves to another state without one. */
  lemma FreeKeeps(codec: Codec, s: Sys, t: nat, task: Task)
    requires SysInv(codec, s) && ConnOf(TaskOf(s, t)) == None && ConnOf(task) == None
    ensures SysInv(codec, s.(tasks := s.tasks[t := task]))
  {
    hide TaskOk, LogOk;
    var s' := s.(tasks := s.tasks[t := task]);
    forall key, i: nat | key in s'.pool && i < |s'.pool[key]| ensures SlotOk(s', key, i) {
      assert SlotOk(s, key, i);
    }
    forall u: nat ensures HolderOk(codec, s', u) {
      assert HolderOk(codec, s, u);
    }
    forall d: nat | d in s'.closing ensures ClosingOk(s', d) {
      assert ClosingOk(s, d);
    }
  }

  lemma TakeKeeps(codec: Codec, s: Sys, t: nat)
    requires SysInv(codec, s) && Can(codec, s, Take(t))
    ensures SysInv(codec, Next(codec, s, Take(t)))
  {
    hide LogOk;
    var key := TaskOf(s, t).key;
    var (pool, taken) := TakeFrom(s.pool, key);
    if taken.None? {
      FreeKeeps(codec, s, t, Connecting(key));
    } else {
      var s', c, n := Next(codec, s, Take(t)), taken.value, |s.pool[key]| - 1;
      assert SlotOk(s, key, n);
      forall k, i: nat | k in s'.pool && i < |s'.pool[k]| ensures SlotOk(s', k, i) {
        assert SlotOk(s, k, i);
      }
      forall u: nat ensures HolderOk(codec, s', u) {
        assert HolderOk(codec, s, u);
      }
      forall d: nat | d in s'.closing ensures ClosingOk(s', d) {
        assert ClosingOk(s, d);
      }
    }
  }

  lemma ConnectedKeeps(codec: Codec, s: Sys, t: nat, c: nat)
    requires SysInv(codec, s) && Can(codec, s, Connected(t, c))
    ensures SysInv(codec, Next(codec, s, Connected(t, c)))
  {
    hide LogOk;
    var s' := Next(codec, s, Connected(t, c));
    forall k, i: nat | k in s'.pool && i < |s'.pool[k]| ensures SlotOk(s', k, i) {
      assert SlotOk(s, k, i);
    }
    forall u: nat ensures HolderOk(codec, s', u) {
      assert HolderOk(codec, s, u);
    }
    forall d: nat | d in s'.closing ensures ClosingOk(s', d) {
      assert ClosingOk(s, d);
    }
  }

  lemma GiveUpKeeps(codec: Codec, s: Sys, t: nat, key: Key, c: nat, stale: bool, w: Wire)
    requires SysInv(codec, s) && ConnOf(TaskOf(s, t)) == Some(c) && AtEase(w)
    ensures SysInv(codec, GiveUp(s, t, key, c, stale, w))
  {
    if stale {
      GoKeeps(codec, s, t, Retiring(key, c), c, w);
    } else {
      DropKeeps(codec, s, t, Idle, c, w);
    }
  }

  lemma GiveKeeps(codec: Codec, s: Sys, t: nat, key: Key, c: nat)
    requires SysInv(codec, s) && ConnOf(TaskOf(s, t)) == Some(c)
    requires AtEase(WireOf(s, c)) && WireOf(s, c).pending == []
    ensures SysInv(codec, Give(s, t, key, c))
  {
    hide TaskOk, LogOk;
    var s' := Give(s, t, key, c);
    assert HolderOk(codec, s, t);
    forall k, i: nat | k in s'.pool && i < |s'.pool[k]| ensures SlotOk(s', k, i) {
      if k in s.pool && i < |s.pool[k]| {
        assert SlotOk(s, k, i);
      }
    }
    forall u: nat ensures HolderOk(codec, s', u) {
      assert HolderOk(codec, s, u);
    }
    forall d: nat | d in s'.closing ensures ClosingOk(s', d) {
      assert ClosingOk(s, d);
    }
  }

  lemma LogKeeps(codec: Codec, s: Sys, x: Exchanged)
    requires SysInv(codec, s) && LogOk(codec, x)
    ensures SysInv(codec, s.(log := s.log + [x]))
  {
    hide TaskOk, LogOk;
    var s' := s.(log := s.log + [x]);
    forall k, i: nat | k in s'.pool && i < |s'.pool[k]| ensures SlotOk(s', k, i) {
      assert SlotOk(s, k, i);
    }
    forall u: nat ensures HolderOk(codec, s', u) {
      assert HolderOk(codec, s, u);
    }
    forall d: nat | d in s'.closing ensures ClosingOk(s', d) {
      assert ClosingOk(s, d);
    }
  }

  lemma FinishKeeps(codec: Codec, s: Sys, t: nat)
    requires SysInv(codec, s) && Can(codec, s, Finish(t))
    ensures SysInv(codec, Next(codec, s, Finish(t)))
  {
    hide SysInv, SelfDelimited, Matched, Feed;
    var task := TaskOf(s, t);
    HolderAt(codec, s, t);
    var w := WireOf(s, task.conn);
    var x := Exchanged(t, task.conn, task.own, task.got, task.ended, task.response, w.delivers, w.peerClosed);
    assert task.got + [] == task.got;
    LogKeeps(codec, s, x);
    var s' := s.(log := s.log + [x]);
    if task.keep {
      GiveKeeps(codec, s', t, task.key, task.conn);
    } else {
      DropKeeps(codec, s', t, Idle, task.conn, WireOf(s', task.conn).(closed := true));
    }
  }

  /** What the invariant says of a task that has a connection. */
  lemma HolderAt(codec: Codec, s: Sys, t: nat)
    requires SysInv(codec, s)
    ensures HolderOk(codec, s, t)
  {
  }

  lemma PooledPlaced(codec: Codec, s: Sys, c: nat)
    requires SysInv(codec, s) && c in Pooled(s.pool)
    ensures c in s.place && c in s.conns && s.place[c].Slot? && AtEase(s.conns[c]) && s.conns[c].pending == []
  {
    var k, i: nat :| k in s.pool && i < |s.pool[k]| && s.pool[k][i] == c;
    assert SlotOk(s, k, i);
  }

  lemma CloseClientKeeps(codec: Codec, s: Sys)
    requires SysInv(codec, s)
    ensures SysInv(codec, Next(codec, s, CloseClient))
  {
    hide TaskOk, LogOk, Pooled;
    var s' := Next(codec, s, CloseClient);
    forall c: nat | c in Pooled(s.pool)
      ensures c in s.place && c in s.conns && s.place[c].Slot? && AtEase(s.conns[c])
    {
      PooledPlaced(codec, s, c);
    }
    forall u: nat ensures HolderOk(codec, s', u) {
      assert HolderOk(codec, s, u);
    }
    forall d: nat | d in s'.closing ensures ClosingOk(s', d) {
      if d !in Pooled(s.pool) {
        assert ClosingOk(s, d);
      }
    }
  }

  lemma CloseOneKeeps(codec: Codec, s: Sys, c: nat)
    requires SysInv(codec, s) && c in s.closing
    ensures SysInv(codec, Next(codec, s, CloseOne(c)))
  {
    hide TaskOk, LogOk;
    var s' := Next(codec, s, CloseOne(c));
    assert ClosingOk(s, c);
    forall k, i: nat | k in s'.pool && i < |s'.pool[k]| ensures SlotOk(s', k, i) {
      assert SlotOk(s, k, i);
    }
    forall u: nat ensures HolderOk(codec, s', u) {
      assert HolderOk(codec, s, u);
    }
    forall d: nat | d in s'.closing ensures ClosingOk(s', d) {
      assert ClosingOk(s, d);
    }
  }

  lemma OwedCut(w: Wire, got: Bytes, own: Bytes, keep: nat)
    requires Owed(w, got, own) && keep <= |w.pending|
    ensures Owed(Cut(w, keep), got, own)
  {
    var delivers := got + w.pending;
    assert delivers[..|delivers| - (|w.pending| - keep)] == got + w.pending[..keep];
  }

  lemma PeerCloseTask(codec: Codec, task: Task, w: Wire, keep: nat)
    requires TaskOk(codec, task, w) && !w.peerClosed && keep <= |w.pending|
    ensures TaskOk(codec, task, Cut(w, keep))
  {
    hide SelfDelimited, Matched, Feed, Owed;
    match task {
      case Sending(_, _, _, own) => OwedCut(w, [], own, keep);
      case Receiving(_, _, _, own, got, _, _) => OwedCut(w, got, own, keep);
      case Concluding(_, _, own, got, _, _, _) => OwedCut(w, got, own, keep);
      case _ =>
    }
  }

  lemma PeerCloseKeeps(codec: Codec, s: Sys, c: nat, keep: nat)
    requires SysInv(codec, s) && Can(codec, s, PeerClose(c, keep))
    ensures SysInv(codec, Next(codec, s, PeerClose(c, keep)))
  {
    hide TaskOk, LogOk;
    var s' := Next(codec, s, PeerClose(c, keep));
    forall k, i: nat | k in s'.pool && i < |s'.pool[k]| ensures SlotOk(s', k, i) {
      assert SlotOk(s, k, i);
    }
    forall u: nat ensures HolderOk(codec, s', u) {
      assert HolderOk(codec, s, u);
      if ConnOf(TaskOf(s, u)) == Some(c) {
        PeerCloseTask(codec, TaskOf(s, u), s.conns[c], keep);
      }
    }
    forall d: nat | d in s'.closing ensures ClosingOk(s', d) {
      assert ClosingOk(s, d);
    }
  }

  lemma SubmitKeeps(codec: Codec, s: Sys, t: nat, answer: Bytes)
    requires SysInv(codec, s) && Can(codec, s, Submit(t, answer))
    ensures SysInv(codec, Next(codec, s, Submit(t, answer)))
  {
    hide SysInv, SelfDelimited;
    HolderAt(codec, s, t);
    var task := TaskOf(s, t);
    var w := s.conns[task.conn];
    assert [] + ([] + answer) == answer;
    GoKeeps(codec, s, t, Sending(task.key, task.conn, task.reused, answer), task.conn, Answering(w, answer));
  }

  lemma WriteDoneKeeps(codec: Codec, s: Sys, t: nat)
    requires SysInv(codec, s) && Can(codec, s, WriteDone(t))
    ensures SysInv(codec, Next(codec, s, WriteDone(t)))
  {
    hide SysInv, SelfDelimited, Feed;
    HolderAt(codec, s, t);
    InitFed(codec);
    var task := TaskOf(s, t);
    GoKeeps(codec, s, t, Receiving(task.key, task.conn, task.reused, task.own, [], INIT, false), task.conn,
            s.conns[task.conn].(writing := false));
  }

  lemma ReadKeeps(codec: Codec, s: Sys, t: nat)
    requires SysInv(codec, s) && Can(codec, s, Read(t))
    ensures SysInv(codec, Next(codec, s, Read(t)))
  {
    hide SysInv, SelfDelimited, Feed;
    HolderAt(codec, s, t);
    var task := TaskOf(s, t);
    GoKeeps(codec, s, t, task.(waiting := true), task.conn, s.conns[task.conn].(reading := true));
  }

  /** A parse that completes has read the peer's whole answer and nothing but that answer. */
  lemma CompleteIsWhole(codec: Codec, own: Bytes, got: Bytes, w: Wire)
    requires SelfDelimited(codec, own) && Owed(w, got, own)
    requires Feed(codec, INIT, got).Ok? && Feed(codec, INIT, got).state.phase == Done
    ensures got == own && w.pending == []
  {
    hide Feed;
    assert got <= own;
    ExactConsumption(codec, own, got, []);
  }

  lemma OwedAfter(w: Wire, got: Bytes, own: Bytes, data: Bytes)
    requires Owed(w, got, own) && data <= w.pending
    ensures Owed(w.(reading := false, pending := w.pending[|data|..]), got + data, own)
  {
    assert got + data + w.pending[|data|..] == got + w.pending;
  }

  lemma ChunkKeeps(codec: Codec, s: Sys, t: nat, data: Bytes)
    requires SysInv(codec, s) && Can(codec, s, Chunk(t, data))
    ensures SysInv(codec, Next(codec, s, Chunk(t, data)))
  {
    hide SysInv, Feed, SelfDelimited, Reusable;
    HolderAt(codec, s, t);
    var task := TaskOf(s, t);
    var w, got := s.conns[task.conn], task.got + data;
    var w' := w.(reading := false, pending := w.pending[|data|..]);
    OwedAfter(w, task.got, task.own, data);
    FedSoFar(codec, task.got, data);
    FeedFramed(codec, got);
    match Feed(codec, task.parser, data)
    case Failed(_) => DropKeeps(codec, s, t, Idle, task.conn, w');
    case Ok(p) =>
      if p.phase == Done {
        CompleteIsWhole(codec, task.own, got, w');
        var r := p.response.value;
        GoKeeps(codec, s, t,
                Concluding(task.key, task.conn, task.own, got, false, r, Reusable(p.untilClose, r)), task.conn, w');
      } else {
        GoKeeps(codec, s, t, task.(got := got, parser := p, waiting := false), task.conn, w');
      }
  }

  lemma EofKeeps(codec: Codec, s: Sys, t: nat)
    requires SysInv(codec, s) && Can(codec, s, Eof(t))
    ensures SysInv(codec, Next(codec, s, Eof(t)))
  {
    hide SysInv, Feed, FeedEof, SelfDelimited, Reusable;
    HolderAt(codec, s, t);
    var task := TaskOf(s, t);
    var w' := s.conns[task.conn].(reading := false);
    if task.reused && task.got == [] {
      GiveUpKeeps(codec, s, t, task.key, task.conn, true, w');
    } else {
      match FeedEof(codec, task.parser)
      case Failed(_) => DropKeeps(codec, s, t, Idle, task.conn, w');
      case Ok(p) =>
        match p.response
        case None => GiveUpKeeps(codec, s, t, task.key, task.conn, task.reused, w');
        case Some(r) =>
          GoKeeps(codec, s, t,
                  Concluding(task.key, task.conn, task.own, task.got, true, r, Reusable(p.untilClose, r)),
                  task.conn, w');
    }
  }

  lemma GiveUpCases(codec: Codec, s: Sys, e: Event)
    requires SysInv(codec, s) && Can(codec, s, e) && (e.WriteFailed? || e.ReadFailed? || e.Retire? || e.Cancel?)
    ensures SysInv(codec, Next(codec, s, e))
  {
    hide SysInv, Feed, SelfDelimited;
    HolderAt(codec, s, e.task);
    var task := TaskOf(s, e.task);
    match e {
      case WriteFailed(t) =>
        GiveUpKeeps(codec, s, t, task.key, task.conn, task.reused, s.conns[task.conn].(writing := false));
      case ReadFailed(t) =>
        GiveUpKeeps(codec, s, t, task.key, task.conn, task.reused && task.got == [],
                    s.conns[task.conn].(reading := false));
      case Retire(t) =>
        DropKeeps(codec, s, t, Connecting(task.key), task.conn, s.conns[task.conn].(closed := true));
      case Cancel(t) =>
        if ConnOf(task).None? {
          FreeKeeps(codec, s, t, Idle);
        } else {
          DropKeeps(codec, s, t, Idle, ConnOf(task).value, s.conns[ConnOf(task).value]);
        }
    }
  }

  lemma SysStepKeepsInv(codec: Codec, s: Sys, e: Event)
    requires SysInv(codec, s) && Can(codec, s, e)
    ensures SysInv(codec, Next(codec, s, e))
  {
    hide SysInv, SelfDelimited;
    match e {
      case Begin(t, key) => FreeKeeps(codec, s, t, Picking(key));
      case Take(t) => TakeKeeps(codec, s, t);
      case Connected(t, c) => ConnectedKeeps(codec, s, t, c);
      case ConnectFailed(t) => FreeKeeps(codec, s, t, Idle);
      case Submit(t, answer) => SubmitKeeps(codec, s, t, answer);
      case WriteDone(t) => WriteDoneKeeps(codec, s, t);
      case Read(t) => ReadKeeps(codec, s, t);
      case Chunk(t, data) => ChunkKeeps(codec, s, t, data);
      case Eof(t) => EofKeeps(codec, s, t);
      case Finish(t) => FinishKeeps(codec, s, t);
      case CloseClient => CloseClientKeeps(codec, s);
      case CloseOne(c) => CloseOneKeeps(codec, s, c);
      case PeerClose(c, keep) => PeerCloseKeeps(codec, s, c, keep);
      case _ => GiveUpCases(codec, s, e);
    }
  }

  ghost predicate IsSysRun(codec: Codec, s: Sys, events: seq<Event>)
    decreases |events|
  {
    events == [] || (Can(codec, s, events[0]) && IsSysRun(codec, Next(codec, s, events[0]), events[1..]))
  }

  ghost function SysAfter(codec: Codec, s: Sys, events: seq<Event>): Sys
    requires IsSysRun(codec, s, events)
    decreases |events|
  {
    if events == [] then s else SysAfter(codec, Next(codec, s, events[0]), events[1..])
  }

  lemma {:induction false} SysRunsKeepInv(codec: Codec, s: Sys, events: seq<Event>)
    requires SysInv(codec, s) && IsSysRun(codec, s, events)
    ensures SysInv(codec, SysAfter(codec, s, events))
    decreases |events|
  {
    hide SysInv, Next;
    if events == [] {
    } else {
      SysStepKeepsInv(codec, s, events[0]);
      SysRunsKeepInv(codec, Next(codec, s, events[0]), events[1..]);
    }
  }

  lemma EmptyInv(codec: Codec)
    ensures SysInv(codec, EMPTY)
  {
  }

  /** In every state of every run, two tasks that hold the same connection are the same task. */
  lemma TasksOwnExclusively(codec: Codec, events: seq<Event>, t: nat, t': nat)
    requires IsSysRun(codec, EMPTY, events)
    ensures var s := SysAfter(codec, EMPTY, events); var c := ConnOf(TaskOf(s, t));
      c.Some? ==> !WireOf(s, c.value).closed && c.value !in s.closing && (ConnOf(TaskOf(s, t')) == c ==> t == t')
  {
    hide SelfDelimited, Feed, Next, Matched;
    EmptyInv(codec);
    SysRunsKeepInv(codec, EMPTY, events);
    var s := SysAfter(codec, EMPTY, events);
    HolderAt(codec, s, t);
    HolderAt(codec, s, t');
    if ConnOf(TaskOf(s, t)).Some? {
      ClosingAt(codec, s, ConnOf(TaskOf(s, t)).value);
    }
  }

  lemma ClosingAt(codec: Codec, s: Sys, c: nat)
    requires SysInv(codec, s)
    ensures c in s.closing ==> ClosingOk(s, c)
  {
  }

  /**
   * In every state of every run, two pool slots with the same connection are the same slot, no task holds a pooled
   * connection, and a pooled connection is open, has nothing unread on it and no operation outstanding.
   */
  lemma PoolOwnsExclusively(codec: Codec, events: seq<Event>, key: Key, i: nat, key': Key, i': nat, t: nat)
    requires IsSysRun(codec, EMPTY, events)
    requires var s := SysAfter(codec, EMPTY, events);
      key in s.pool && i < |s.pool[key]| && key' in s.pool && i' < |s.pool[key']|
    ensures var s := SysAfter(codec, EMPTY, events);
      var c := s.pool[key][i];
      && (c == s.pool[key'][i'] ==> key == key' && i == i')
      && ConnOf(TaskOf(s, t)) != Some(c) && c !in s.closing
      && c in s.conns && AtEase(s.conns[c]) && s.conns[c].pending == []
  {
    hide TaskOk, Next;
    EmptyInv(codec);
    SysRunsKeepInv(codec, EMPTY, events);
    var s := SysAfter(codec, EMPTY, events);
    assert SlotOk(s, key, i) && SlotOk(s, key', i');
    HolderAt(codec, s, t);
    ClosingAt(codec, s, s.pool[key][i]);
  }

  /**
   * The core's contract is discharged: whenever a task submits a write or makes a read, its connection is open and
   * has no other operation outstanding, so a parked read is never overwritten.
   */
  lemma OperationsNeverOverlap(codec: Codec, events: seq<Event>, e: Event)
    requires IsSysRun(codec, EMPTY, events) && (e.Submit? || e.Read?)
    requires Can(codec, SysAfter(codec, EMPTY, events), e)
    ensures var s := SysAfter(codec, EMPTY, events);
      var c := ConnOf(TaskOf(s, e.task));
      c.Some? && c.value in s.conns && AtEase(s.conns[c.value])
  {
    hide SelfDelimited, Feed;
    EmptyInv(codec);
    SysRunsKeepInv(codec, EMPTY, events);
    HolderAt(codec, SysAfter(codec, EMPTY, events), e.task);
  }

  /**
   * Request/response matching, over every interleaving of any number of tasks, closes, cancellations and peer
   * closes: each response returned is the parse of what the peer sent of its answer to that very request, all of
   * it and nothing else; and that is the whole answer, unless the peer closed the connection before its end.
   */
  lemma ResponsesMatchRequests(codec: Codec, events: seq<Event>, i: nat)
    requires IsSysRun(codec, EMPTY, events) && i < |SysAfter(codec, EMPTY, events).log|
    ensures var x := SysAfter(codec, EMPTY, events).log[i];
      && x.got == x.delivers <= x.own && (x.ended || x.delivers != x.own ==> x.peerClosed)
      && (!x.ended ==> x.got == x.own && Feed(codec, INIT, x.own).Ok?
                       && Feed(codec, INIT, x.own).state.response == Some(x.response))
      && (x.ended ==> ThenEof(codec, Feed(codec, INIT, x.got)).Ok?
                      && ThenEof(codec, Feed(codec, INIT, x.got)).state.response == Some(x.response))
  {
    hide Feed, Next;
    EmptyInv(codec);
    SysRunsKeepInv(codec, EMPTY, events);
    assert LogOk(codec, SysAfter(codec, EMPTY, events).log[i]);
  }
}
