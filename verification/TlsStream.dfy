/** The blocking socket over a connection: `recv` re-slices whole chunks, and every wait has the socket's deadline. */
module TlsStream {
  import opened ByteStrings
  import opened TlsRead

  // Deadlines.

  const MAX_TIMEOUT_MS: nat := 0xFFFFFFFF

  function Ceil(x: real): int {
    -((-x).Floor)
  }

  /** `timeout_to_ms`, over exact reals. */
  function TimeoutToMs(timeout: Option<real>): (ms: nat)
    ensures ms == 0 <==> timeout.None?
    ensures ms <= MAX_TIMEOUT_MS
  {
    match timeout
    case None => 0
    case Some(t) =>
      if t <= 0.0 then 1
      else
        var ms := Ceil(t * 1000.0);
        var atLeastOne := if ms < 1 then 1 else ms;
        if atLeastOne > MAX_TIMEOUT_MS then MAX_TIMEOUT_MS else atLeastOne
  }

  lemma CeilBounds(x: real)
    ensures x <= Ceil(x) as real < x + 1.0
  {
  }

  /** A deadline never cuts the request short, and overshoots it by less than a millisecond. */
  lemma DeadlineTight(t: real)
    requires t >= 0.001 && t * 1000.0 <= MAX_TIMEOUT_MS as real
    ensures t * 1000.0 <= TimeoutToMs(Some(t)) as real < t * 1000.0 + 1.0
  {
    CeilBounds(t * 1000.0);
  }

  lemma DeadlineMonotone(t: real, t': real)
    requires t <= t'
    ensures TimeoutToMs(Some(t)) <= TimeoutToMs(Some(t'))
  {
    if t > 0.0 {
      assert t * 1000.0 <= t' * 1000.0;
      CeilBounds(t * 1000.0);
      CeilBounds(t' * 1000.0);
    }
  }

  // Python slices.

  /** Where a slice of Python cuts at `k`: negative `k` counts from the end, and both ends are clamped. */
  function Cut(s: Bytes, k: int): (i: nat)
    ensures i <= |s|
  {
    var i := if k < 0 then k + |s| else k;
    if i < 0 then 0 else if i > |s| then |s| else i
  }

  // The socket.

  datatype Sock = Sock(rbuf: Bytes, eof: bool, timeout: Option<real>, closed: bool)

  datatype Recv = Returned(data: Bytes) | Raised(reason: Reason)

  predicate NeedsRead(s: Sock) {
    s.rbuf == [] && !s.eof
  }

  /** `recv` when it does not have to read. */
  function RecvBuffered(s: Sock, bufsize: int): (Sock, Bytes) {
    if s.rbuf != [] then (s.(rbuf := s.rbuf[Cut(s.rbuf, bufsize)..]), s.rbuf[..Cut(s.rbuf, bufsize)])
    else (s, [])
  }

  /** `recv` once the read it made has been settled with `reply`. */
  function RecvReply(s: Sock, bufsize: int, reply: Settlement): (Sock, Recv) {
    match reply
    case Rejected(reason) => (s, Raised(reason))
    case Resolved(chunk) =>
      if chunk == [] then (s.(eof := true), Returned([]))
      else (s.(rbuf := chunk[Cut(chunk, bufsize)..]), Returned(chunk[..Cut(chunk, bufsize)]))
  }

  function RecvStep(s: Sock, bufsize: int, reply: Settlement): (Sock, Recv) {
    if NeedsRead(s) then RecvReply(s, bufsize, reply)
    else
      var (s', data) := RecvBuffered(s, bufsize);
      (s', Returned(data))
  }

  /**
   * A `recv` hands out as much of what is there as its size allows, from the front, and keeps the rest; a negative size
   * leaves that many bytes at the end.
   */
  predicate HandsOut(there: Bytes, bufsize: int, data: Bytes, rbuf: Bytes) {
    && data + rbuf == there
    && |data| == if bufsize >= |there| then |there| else if bufsize >= 0 then bufsize
                 else if -bufsize >= |there| then 0 else |there| + bufsize
  }

  lemma RecvHandsOut(s: Sock, bufsize: int, reply: Settlement)
    ensures var (s', r) := RecvStep(s, bufsize, reply);
      && s'.timeout == s.timeout && s'.closed == s.closed
      && if s.rbuf != [] then r.Returned? && HandsOut(s.rbuf, bufsize, r.data, s'.rbuf) && s'.eof == s.eof
         else if s.eof then r == Returned([]) && s' == s
         else
           match reply
           case Rejected(reason) => r == Raised(reason) && s' == s
           case Resolved(chunk) =>
             r.Returned? && HandsOut(chunk, bufsize, r.data, s'.rbuf) && (s'.eof <==> chunk == [])
  {
  }

  /** Overwrites the front of a fixed-size buffer. */
  method CopyInto(b: array<Byte>, data: Bytes)
    requires |data| <= b.Length
    modifies b
    ensures b[..] == data + old(b[|data|..])
  {
    for i := 0 to |data|
      invariant forall k :: 0 <= k < i ==> b[k] == data[k]
      invariant forall k :: i <= k < b.Length ==> b[k] == old(b[k])
    {
      b[i] := data[i];
    }
  }

  class TlsSocket {
    const conn: TlsConnection
    var rbuf: Bytes
    var eof: bool
    var timeout: Option<real>
    var closed: bool

    ghost function Abs(): Sock
      reads this
    {
      Sock(rbuf, eof, timeout, closed)
    }

    constructor (conn: TlsConnection, timeout: Option<real>)
      ensures Abs() == Sock([], false, timeout, false) && this.conn == conn
    {
      this.conn := conn;
      rbuf, eof, this.timeout, closed := [], false, timeout, false;
    }

    /** `reply` is what `run_sync` hands back if a read has to be made. */
    method Recv(bufsize: int, reply: Settlement) returns (r: Recv)
      modifies this
      ensures (Abs(), r) == RecvStep(old(Abs()), bufsize, reply)
    {
      if rbuf != [] {
        var i := Cut(rbuf, bufsize);
        r := Returned(rbuf[..i]);
        rbuf := rbuf[i..];
        return;
      }
      if eof {
        return Returned([]);
      }
      match reply {
        case Rejected(reason) => return Raised(reason);
        case Resolved(chunk) =>
          if chunk == [] {
            eof := true;
            return Returned([]);
          }
          var i := Cut(chunk, bufsize);
          r := Returned(chunk[..i]);
          rbuf := chunk[i..];
      }
    }

    /** `readinto`, and `recv_into` with its default size: the bytes received overwrite the front of the buffer. */
    method ReadInto(b: array<Byte>, reply: Settlement) returns (n: Option<nat>)
      modifies this, b
      ensures var (s, r) := RecvStep(old(Abs()), b.Length, reply);
        && Abs() == s
        && match r
           case Raised(_) => n == None && b[..] == old(b[..])
           case Returned(data) => |data| <= b.Length && n == Some(|data|) && b[..] == data + old(b[|data|..])
    {
      var r := Recv(b.Length, reply);
      match r {
        case Raised(_) => return None;
        case Returned(data) =>
          CopyInto(b, data);
          return Some(|data|);
      }
    }

    method SetTimeout(t: Option<real>)
      modifies this`timeout
      ensures timeout == t
    {
      timeout := t;
    }

    method Close()
      modifies this`closed, conn
      ensures closed
      ensures conn.Abs() == if old(closed) then old(conn.Abs()) else CloseTask(old(conn.Abs()))
    {
      if !closed {
        closed := true;
        conn.RunClose();
      }
    }
  }

  // The socket on top of its connection, with every interleaving of the two.

  datatype Answer = Answer(bufsize: int, result: Recv)

  /** A `recv` that has made a read and is waiting for it. */
  datatype Waiting = Waiting(bufsize: int, timeout: Option<real>)

  datatype Stack = Stack(net: Net, sock: Sock, call: Option<Waiting>, answers: seq<Answer>)

  datatype Step = Call(bufsize: int) | Loop(event: Event) | Return | SetTimeout(timeout: Option<real>) | CloseSocket

  function Start(timeout: Option<real>): Stack {
    Stack(QUIET, Sock([], false, timeout, false), None, [])
  }

  predicate CanStep(st: Stack, step: Step) {
    match step
    case Call(_) => st.call.None?
    case Loop(e) => !e.Post? && !e.Close? && Enabled(st.net, e)
    case Return => st.call.Some? && !Outstanding(st.net) && st.net.conn.settled != []
    case SetTimeout(_) => true
    case CloseSocket => true
  }

  function Do(st: Stack, step: Step): Stack
    requires CanStep(st, step)
  {
    match step
    case Call(bufsize) =>
      if NeedsRead(st.sock) then
        st.(net := Apply(st.net, Post(TimeoutToMs(st.sock.timeout))), call := Some(Waiting(bufsize, st.sock.timeout)))
      else
        var (sock, data) := RecvBuffered(st.sock, bufsize);
        st.(sock := sock, answers := st.answers + [Answer(bufsize, Returned(data))])
    case Loop(e) => st.(net := Apply(st.net, e))
    case Return =>
      var log, bufsize := st.net.conn.settled, st.call.value.bufsize;
      var (sock, result) := RecvReply(st.sock, bufsize, log[|log| - 1].how);
      st.(sock := sock, call := None, answers := st.answers + [Answer(bufsize, result)])
    case SetTimeout(timeout) => st.(sock := st.sock.(timeout := timeout))
    case CloseSocket =>
      if st.sock.closed then st else st.(sock := st.sock.(closed := true), net := Apply(st.net, Close))
  }

  function Handed(answers: seq<Answer>): Bytes {
    if answers == [] then []
    else
      var last := answers[|answers| - 1].result;
      Handed(answers[..|answers| - 1]) + (if last.Returned? then last.data else [])
  }

  /** The bytes of a settled read that its `recv` has not taken yet. */
  function InFlight(st: Stack): Bytes {
    var log := st.net.conn.settled;
    if st.call.Some? && !Outstanding(st.net) && log != [] && log[|log| - 1].how.Resolved?
    then log[|log| - 1].how.data else []
  }

  /** Nothing is lost, repeated or reordered on the way from the settled reads to the callers of `recv`. */
  predicate Conserved(st: Stack) {
    Handed(st.answers) + st.sock.rbuf + InFlight(st) == Received(st.net.conn.settled)
  }

  /** An answer is no longer than asked for; an empty one to a positive size comes after all of an ended stream. */
  predicate AnswerOk(st: Stack, i: nat)
    requires i < |st.answers|
  {
    match st.answers[i]
    case Answer(bufsize, Returned(data)) =>
      && (bufsize >= 0 ==> |data| <= bufsize)
      && (bufsize > 0 && data == [] ==> st.net.conn.eof && Handed(st.answers[..i]) == st.net.delivered)
    case _ => true
  }

  predicate StackInv(st: Stack) {
    && Inv(st.net)
    && Conserved(st)
    && (st.call.None? ==> !Outstanding(st.net))
    && (st.call.Some? ==> NeedsRead(st.sock) && (Outstanding(st.net) || st.net.conn.settled != []))
    && (st.call.Some? && Outstanding(st.net) ==>
          Deadline(st.net, |st.net.conn.settled|) == TimeoutToMs(st.call.value.timeout))
    && (st.sock.eof ==> st.sock.rbuf == [] && st.net.conn.eof && Handed(st.answers) == st.net.delivered)
    && (forall i: nat :: i < |st.answers| ==> AnswerOk(st, i))
  }

  lemma HandedGrows(answers: seq<Answer>, a: Answer)
    ensures Handed(answers + [a]) == Handed(answers) + (if a.result.Returned? then a.result.data else [])
  {
    assert (answers + [a])[..|answers|] == answers;
  }

  lemma AnswersKept(st: Stack, st': Stack)
    requires StackInv(st) && st.answers <= st'.answers && |st'.answers| <= |st.answers| + 1
    requires st.net.conn.eof ==> st'.net.conn.eof && st'.net.delivered == st.net.delivered
    requires |st'.answers| > |st.answers| ==> AnswerOk(st', |st.answers|)
    ensures forall i: nat :: i < |st'.answers| ==> AnswerOk(st', i)
  {
    forall i: nat | i < |st'.answers| ensures AnswerOk(st', i) {
      if i < |st.answers| {
        assert AnswerOk(st, i);
        assert st'.answers[..i] == st.answers[..i];
      }
    }
  }

  lemma CallReads(st: Stack, bufsize: int)
    requires StackInv(st) && st.call.None? && NeedsRead(st.sock)
    ensures StackInv(Do(st, Call(bufsize)))
  {
    hide Handed, Received, TimeoutToMs, LogInv;
    StepKeepsInv(st.net, Post(TimeoutToMs(st.sock.timeout)));
    AnswersKept(st, Do(st, Call(bufsize)));
  }

  lemma RecvBufferedKeeps(s: Sock, bufsize: int)
    requires !NeedsRead(s)
    ensures var (s', data) := RecvBuffered(s, bufsize);
      && data + s'.rbuf == s.rbuf && s'.eof == s.eof && s'.timeout == s.timeout
      && (bufsize >= 0 ==> |data| <= bufsize) && (bufsize > 0 && data == [] ==> s.eof)
  {
  }

  lemma CallBuffered(st: Stack, bufsize: int)
    requires StackInv(st) && st.call.None? && !NeedsRead(st.sock)
    ensures StackInv(Do(st, Call(bufsize)))
  {
    hide Handed, Received, RecvBuffered, Inv;
    var st' := Do(st, Call(bufsize));
    var (sock, data) := RecvBuffered(st.sock, bufsize);
    RecvBufferedKeeps(st.sock, bufsize);
    HandedGrows(st.answers, Answer(bufsize, Returned(data)));
    assert Handed(st.answers) + data + sock.rbuf == Handed(st.answers) + (data + sock.rbuf);
    assert st'.answers[..|st.answers|] == st.answers;
    AnswersKept(st, st');
  }

  lemma CallKeepsInv(st: Stack, bufsize: int)
    requires StackInv(st) && st.call.None?
    ensures StackInv(Do(st, Call(bufsize)))
  {
    hide StackInv;
    if NeedsRead(st.sock) {
      CallReads(st, bufsize);
    } else {
      CallBuffered(st, bufsize);
    }
  }

  lemma SameEnd(a: Bytes, b: Bytes, x: Bytes)
    requires a + x == b + x
    ensures a == b
  {
    assert (a + x)[..|a|] == a && (b + x)[..|b|] == b;
  }

  lemma RecvReplyKeeps(s: Sock, bufsize: int, reply: Settlement)
    requires NeedsRead(s)
    ensures var (s', r) := RecvReply(s, bufsize, reply);
      && s'.timeout == s.timeout
      && (if r.Returned? then r.data else []) + s'.rbuf == (if reply.Resolved? then reply.data else [])
      && (s'.eof <==> reply == Resolved([])) && (s'.eof ==> s'.rbuf == [])
      && (r.Returned? && bufsize >= 0 ==> |r.data| <= bufsize)
      && (r.Returned? && bufsize > 0 && r.data == [] ==> reply == Resolved([]))
  {
  }

  lemma ReturnKeepsInv(st: Stack)
    requires StackInv(st) && CanStep(st, Return)
    ensures StackInv(Do(st, Return))
  {
    hide RecvReply, Handed, Received;
    var st', bufsize, log := Do(st, Return), st.call.value.bufsize, st.net.conn.settled;
    var n := |log| - 1;
    var (sock, result) := RecvReply(st.sock, bufsize, log[n].how);
    RecvReplyKeeps(st.sock, bufsize, log[n].how);
    HandedGrows(st.answers, Answer(bufsize, result));
    LastReceived(log);
    assert Handed(st.answers) + st.sock.rbuf == Handed(st.answers);
    SameEnd(Handed(st.answers), Received(log[..n]), InFlight(st));
    assert st'.answers[..|st.answers|] == st.answers;
    AnswersKept(st, st');
  }

  lemma LastReceived(log: seq<Settled>)
    requires log != []
    ensures Received(log) == Received(log[..|log| - 1])
                             + (if log[|log| - 1].how.Resolved? then log[|log| - 1].how.data else [])
  {
  }

  lemma LoopSettles(n: Net, e: Event)
    requires Inv(n) && Enabled(n, e) && !e.Post?
    ensures var log, n' := n.conn.settled, Apply(n, e); var log' := n'.conn.settled;
      && n'.deadlines == n.deadlines
      && (n.conn.eof ==> n'.conn.eof && n'.delivered == n.delivered)
      && ((log' == log && Outstanding(n') == Outstanding(n))
          || (|log'| == |log| + 1 && log' == log + [log'[|log|]] && Outstanding(n) && !Outstanding(n')))
  {
    StepKeepsInv(n, e);
    if n.posted.Some? && e.RunRead? {
      SubmittedReadSettles(n);
    } else if n.conn.pending.Some? {
      ParkedReadSettles(n, e);
    }
  }

  lemma LoopKeepsInv(st: Stack, e: Event)
    requires StackInv(st) && CanStep(st, Loop(e))
    ensures StackInv(Do(st, Loop(e)))
  {
    hide Apply, Enabled;
    var st' := Do(st, Loop(e));
    StepKeepsInv(st.net, e);
    LoopSettles(st.net, e);
    var log, log' := st.net.conn.settled, st'.net.conn.settled;
    if log' != log {
      assert log'[..|log'| - 1] == log;
      LastReceived(log');
    }
    AnswersKept(st, st');
  }

  lemma StackStepKeepsInv(st: Stack, step: Step)
    requires StackInv(st) && CanStep(st, step)
    ensures StackInv(Do(st, step))
  {
    match step {
      case Call(bufsize) => CallKeepsInv(st, bufsize);
      case Loop(e) => LoopKeepsInv(st, e);
      case Return => ReturnKeepsInv(st);
      case SetTimeout(_) => AnswersKept(st, Do(st, step));
      case CloseSocket => AnswersKept(st, Do(st, step));
    }
  }

  predicate IsStackRun(st: Stack, steps: seq<Step>)
    decreases |steps|
  {
    steps == [] || (CanStep(st, steps[0]) && IsStackRun(Do(st, steps[0]), steps[1..]))
  }

  function StackAfter(st: Stack, steps: seq<Step>): Stack
    requires IsStackRun(st, steps)
    decreases |steps|
  {
    if steps == [] then st else StackAfter(Do(st, steps[0]), steps[1..])
  }

  lemma {:induction false} StackRunsKeepInv(st: Stack, steps: seq<Step>)
    requires StackInv(st) && IsStackRun(st, steps)
    ensures StackInv(StackAfter(st, steps))
    decreases |steps|
  {
    if steps == [] {
    } else {
      StackStepKeepsInv(st, steps[0]);
      StackRunsKeepInv(Do(st, steps[0]), steps[1..]);
    }
  }

  /**
   * In every reachable state, whatever sizes, timeouts and interleavings led to it: the bytes handed out, then
   * `_rbuf`, then the settled read on its way, then the connection's buffer are the bytes delivered, in order;
   * no answer exceeds its size; and an empty answer to a positive size means that the stream had ended and
   * every delivered byte had been handed out.
   */
  lemma StreamConservation(timeout: Option<real>, steps: seq<Step>)
    requires IsStackRun(Start(timeout), steps)
    ensures var st := StackAfter(Start(timeout), steps);
      && Handed(st.answers) + st.sock.rbuf + InFlight(st) + Concat(st.net.conn.buffer) == st.net.delivered
      && forall i: nat :: i < |st.answers| ==> AnswerOk(st, i)
  {
    StackRunsKeepInv(Start(timeout), steps);
    assert Conserved(StackAfter(Start(timeout), steps));
  }

  // What the state owes to the steps alone.

  /** The timeout in force: the last one set. */
  function InForce(timeout: Option<real>, steps: seq<Step>): Option<real> {
    if steps == [] then timeout
    else
      var last := steps[|steps| - 1];
      if last.SetTimeout? then last.timeout else InForce(timeout, steps[..|steps| - 1])
  }

  /** The one in force when `recv` was last called. */
  function AtLastCall(timeout: Option<real>, steps: seq<Step>): Option<real> {
    if steps == [] then None
    else
      var past := steps[..|steps| - 1];
      if steps[|steps| - 1].Call? then InForce(timeout, past) else AtLastCall(timeout, past)
  }

  predicate Told(st: Stack, timeout: Option<real>, past: seq<Step>) {
    && st.sock.timeout == InForce(timeout, past)
    && (st.call.Some? ==> st.call.value.timeout == AtLastCall(timeout, past))
    && (st.sock.closed <==> CloseSocket in past) && (st.net.conn.open <==> CloseSocket !in past)
  }

  lemma StepTold(st: Stack, timeout: Option<real>, past: seq<Step>, step: Step)
    requires Told(st, timeout, past) && CanStep(st, step)
    ensures Told(Do(st, step), timeout, past + [step])
  {
    var now := past + [step];
    assert now[..|past|] == past && now[|past|] == step;
    assert CloseSocket in now <==> CloseSocket in past || step == CloseSocket;
    hide TimeoutToMs, Cut;
    if step.Loop? {
      StepRecords(st.net, step.event);
      hide Apply, Enabled;
    }
  }

  lemma {:induction false} RunTold(st: Stack, timeout: Option<real>, past: seq<Step>, steps: seq<Step>)
    requires Told(st, timeout, past) && IsStackRun(st, steps)
    ensures Told(StackAfter(st, steps), timeout, past + steps)
    decreases |steps|
  {
    hide Told, Do, CanStep;
    if steps == [] {
      assert past + steps == past;
    } else {
      StepTold(st, timeout, past, steps[0]);
      RunTold(Do(st, steps[0]), timeout, past + [steps[0]], steps[1..]);
      assert past + [steps[0]] + steps[1..] == past + steps;
    }
  }

  /**
   * A waiting `recv` has the deadline of the timeout that was in force when it was called, whatever is set meanwhile;
   * and the connection delivers until the socket is closed, but not after.
   */
  lemma SettingsTold(timeout: Option<real>, steps: seq<Step>)
    requires IsStackRun(Start(timeout), steps)
    ensures var st := StackAfter(Start(timeout), steps);
      && (st.call.Some? && Outstanding(st.net) ==>
            Deadline(st.net, |st.net.conn.settled|) == TimeoutToMs(AtLastCall(timeout, steps)))
      && (st.net.conn.open <==> CloseSocket !in steps)
  {
    StackRunsKeepInv(Start(timeout), steps);
    RunTold(Start(timeout), timeout, [], steps);
    assert [] + steps == steps;
  }

  /** What the loop can do for a waiting `recv` without the network: run its read, let its deadline fire. */
  function Alone(st: Stack): seq<Step> {
    if !Outstanding(st.net) then []
    else if st.net.posted.None? then [Loop(Timeout)]
    else if Outstanding(Apply(st.net, RunRead)) then [Loop(RunRead), Loop(Timeout)]
    else [Loop(RunRead)]
  }

  lemma ParkedEnds(st: Stack)
    requires StackInv(st) && st.call.Some? && st.call.value.timeout.Some? && st.net.conn.pending.Some?
    ensures CanStep(st, Loop(Timeout)) && st.net.conn.timer.ms == TimeoutToMs(st.call.value.timeout)
    ensures var st' := Do(st, Loop(Timeout));
      && CanStep(st', Return)
      && var st'' := Do(st', Return);
         && st''.answers == st.answers + [Answer(st.call.value.bufsize, Raised(TimedOut))]
         && st''.sock == st.sock && st''.net.conn.buffer == st.net.conn.buffer && st''.net.delivered == st.net.delivered
  {
    ParkedReadSettles(st.net, Timeout);
  }

  lemma StackOne(st: Stack, step: Step)
    requires CanStep(st, step)
    ensures IsStackRun(st, [step]) && StackAfter(st, [step]) == Do(st, step)
  {
    var st' := Do(st, step);
    assert [step][1..] == [];
    assert IsStackRun(st', []) && StackAfter(st', []) == st';
  }

  lemma StackTwo(st: Stack, step: Step, step': Step)
    requires CanStep(st, step) && CanStep(Do(st, step), step')
    ensures IsStackRun(st, [step, step']) && StackAfter(st, [step, step']) == Do(Do(st, step), step')
  {
    StackOne(Do(st, step), step');
    assert [step, step'][1..] == [step'];
  }

  lemma PendingAlone(st: Stack)
    requires StackInv(st) && st.net.conn.pending.Some?
    ensures Alone(st) == [Loop(Timeout)]
  {
  }

  lemma PostedRuns(st: Stack)
    requires StackInv(st) && st.call.Some? && st.net.posted.Some?
    ensures CanStep(st, Loop(RunRead))
    ensures var st' := Do(st, Loop(RunRead));
      && st'.net == Apply(st.net, RunRead) && st'.call == st.call
      && (if Outstanding(st'.net) then st'.net.conn.pending.Some? else CanStep(st', Return))
  {
    SubmittedReadSettles(st.net);
  }

  lemma SettledReturns(st: Stack)
    requires StackInv(st) && st.call.Some? && !Outstanding(st.net)
    ensures IsStackRun(st, []) && StackAfter(st, []) == st && CanStep(st, Return)
  {
  }

  /**
   * A `recv` made with a timeout never waits for ever: from every reachable state in which it is still waiting, the
   * loop's own steps bring it to its return, even if the peer is silent and the connection was closed locally.
   * When it is parked its own deadline is armed, and if that fires the call raises and nothing is lost.
   */
  lemma DeadlineSound(timeout: Option<real>, steps: seq<Step>)
    requires IsStackRun(Start(timeout), steps)
    requires var st := StackAfter(Start(timeout), steps); st.call.Some? && st.call.value.timeout.Some?
    ensures var st := StackAfter(Start(timeout), steps);
      && IsStackRun(st, Alone(st))
      && CanStep(StackAfter(st, Alone(st)), Return)
      && (st.net.conn.pending.Some? ==>
            && CanStep(st, Loop(Timeout)) && st.net.conn.timer.ms == TimeoutToMs(st.call.value.timeout)
            && var st' := Do(st, Loop(Timeout));
               && CanStep(st', Return)
               && var st'' := Do(st', Return);
                  && st''.answers == st.answers + [Answer(st.call.value.bufsize, Raised(TimedOut))]
                  && st''.sock == st.sock && st''.net.conn.buffer == st.net.conn.buffer
                  && st''.net.delivered == st.net.delivered)
  {
    StackRunsKeepInv(Start(timeout), steps);
    var st := StackAfter(Start(timeout), steps);
    hide StackInv, Apply, Enabled, IsStackRun, StackAfter;
    if st.net.conn.pending.Some? {
      ParkedEnds(st);
      PendingAlone(st);
      StackOne(st, Loop(Timeout));
    } else if st.net.posted.Some? {
      PostedRuns(st);
      var st' := Do(st, Loop(RunRead));
      StackStepKeepsInv(st, Loop(RunRead));
      if Outstanding(st'.net) {
        ParkedEnds(st');
        StackTwo(st, Loop(RunRead), Loop(Timeout));
      } else {
        StackOne(st, Loop(RunRead));
      }
    } else {
      SettledReturns(st);
    }
  }
}
